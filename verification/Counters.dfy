/** When a request that passed the ceremony is turned away by the counter update, and who
    can never obtain an assertion. */
module Counters {
  import opened Basics
  import opened Integers
  import opened WebAuthn
  import opened IdentityStore
  import opened Authentication
  import opened AuthenticationProofs
  import AuditLog

  /** The ceremony reports the counter that stands in the octets of the request. */
  ghost predicate ReadsCounter(p: Provider) {
    forall challenge, proof, seen ::
      p.ceremony(challenge, proof, seen).Some? ==> p.ceremony(challenge, proof, seen).value.newSignCount == CounterIn(proof)
  }

  /** The real ceremony as a service. */
  function CeremonyOf(k: Checks, ceremony: Ceremony): (Bytes, Proof, Credential) -> Option<CeremonyClaims> {
    (challenge, proof, seen) =>
      var r := VerifyCeremony(k, ceremony, challenge, proof, seen);
      if r.Ok? then Some(r.value) else None
  }

  lemma RealCeremonyReadsCounter(p: Provider, k: Checks, ceremony: Ceremony)
    requires p.ceremony == CeremonyOf(k, ceremony)
    ensures ReadsCounter(p)
  {
  }

  // ----- the exact condition at the update -----------------------------------------------------

  /** A request that passed the ceremony commits exactly when the counter in its octets
      exceeds the one stored at that moment; otherwise it ends there. */
  lemma AdvanceExact(p: Provider, s: State, r: nat)
    requires r in s.requests && s.requests[r].Verified?
    requires s.requests[r].claims.newSignCount == CounterIn(s.requests[r].proof)
    ensures
      var t, proof := Apply(p, s, AdvanceCounter(r)), s.requests[r].proof;
      var id := proof.credentialId;
      && ((r in t.requests && |t.commits| == |s.commits| + 1) <==>
            id in s.authenticators && s.authenticators[id].signCount < CounterIn(proof))
      && (r !in t.requests ==> t.commits == s.commits && t.authenticators == s.authenticators)
  {
  }

  // ----- first failing family: an authenticator that does not count ----------------------------

  function AcceptingChecks(hash: Digest): Checks {
    Checks(_ => hash, (_, _, _) => true, _ => true, (_, _, _) => true)
  }

  /** The data of a present user with the given counter. */
  function DataWith(hash: Digest, counter: nat): Bytes {
    WriteAuthenticatorData(AuthenticatorData(hash, 1, counter), "")
  }

  lemma {:induction false} BigEndianOctets(n: nat, k: nat)
    ensures IsOctets(BigEndian(n, k))
  {
    if k > 0 { BigEndianOctets(n / 256, k - 1); }
  }

  lemma DataWithCounter(hash: Digest, counter: nat)
    requires counter < Power256(4)
    ensures IsOctets(DataWith(hash, counter)) && |DataWith(hash, counter)| == 37
    ensures BigEndianValue(DataWith(hash, counter)[33..37]) == counter
  {
    var data := DataWith(hash, counter);
    BigEndianOctets(counter, 4);
    assert data[33..37] == BigEndian(counter, 4);
    BigEndianRoundTrip(counter, 4);
  }

  /** An authenticator registered with counter 0 that answers with counter 0: everything
      about its answer is right, the ceremony succeeds, and the update turns it away. */
  lemma CounterlessExample(hash: Digest, origin: Bytes, rpId: Bytes, challenge: Bytes, id: Bytes)
    ensures
      var credential := Credential("subject", "key", false, 0, false);
      && IsOctets(DataWith(hash, 0))
      && var proof := Proof(id, "", DataWith(hash, 0), "");
      && VerifyCeremony(AcceptingChecks(hash), Ceremony(origin, rpId), challenge, proof, credential).Ok?
      && !Advances(map[id := credential], id, CounterIn(proof))
  {
    assert Power256(4) > 0;
    DataWithCounter(hash, 0);
    var credential := Credential("subject", "key", false, 0, false);
    var proof := Proof(id, "", DataWith(hash, 0), "");
    CeremonyOnWrittenData(AcceptingChecks(hash), Ceremony(origin, rpId), challenge, AuthenticatorData(hash, 1, 0), "", proof,
                          credential);
  }

  // ----- second failing family: overtaken by another request -----------------------------------

  /** Two requests of one credential have both passed the ceremony. If the one with the
      higher or equal counter is updated first, the other is turned away. */
  lemma Overtaken(p: Provider, s: State, r: nat, q: nat)
    requires r in s.requests && q in s.requests && r != q && s.requests[r].Verified? && s.requests[q].Verified?
    requires s.requests[r].proof.credentialId == s.requests[q].proof.credentialId
    requires s.requests[q].claims.newSignCount <= s.requests[r].claims.newSignCount
    ensures
      var t := Apply(p, s, AdvanceCounter(r));
      var u := Apply(p, t, AdvanceCounter(q));
      |t.commits| == |s.commits| + 1 ==> q in t.requests && q !in u.requests && u.commits == t.commits
  {
  }

  lemma RunThen(p: Provider, front: seq<Action>, last: Action)
    ensures Run(p, Initial, front + [last]) == Apply(p, Run(p, Initial, front), last)
  {
    assert (front + [last])[..|front|] == front;
  }

  function Fresh(used: bool): Challenge {
    Challenge("subject", AUTHENTICATION, 1, used)
  }

  /** One registered authenticator and two challenges. */
  function Setup(id: Bytes, credential: Credential, c1: Bytes, c2: Bytes): seq<Action> {
    [] + [Register(id, credential)] + [IssueChallenge(c1, Fresh(false))] + [IssueChallenge(c2, Fresh(false))]
  }

  lemma SetupRun(p: Provider, id: Bytes, credential: Credential, c1: Bytes, c2: Bytes)
    requires c1 != c2
    ensures Run(p, Initial, Setup(id, credential, c1, c2)) ==
      Initial.(authenticators := map[id := credential], challenges := map[c1 := Fresh(false), c2 := Fresh(false)])
  {
    var a1: seq<Action> := [] + [Register(id, credential)];
    RunThen(p, [], Register(id, credential));
    RunThen(p, a1, IssueChallenge(c1, Fresh(false)));
    RunThen(p, a1 + [IssueChallenge(c1, Fresh(false))], IssueChallenge(c2, Fresh(false)));
  }

  lemma ConsumeBoth(p: Provider, s: State, c1: Bytes, c2: Bytes, proof1: Proof, proof2: Proof)
    requires c1 != c2 && s.challenges == map[c1 := Fresh(false), c2 := Fresh(false)] && s.requests == map[]
    ensures
      var t := Apply(p, Apply(p, s, Consume(1, c1, proof1, 0)), Consume(2, c2, proof2, 0));
      && t.requests == map[1 := Consumed(c1, proof1), 2 := Consumed(c2, proof2)]
      && t.authenticators == s.authenticators && t.commits == s.commits
  {
  }

  lemma CheckBoth(p: Provider, s: State, id: Bytes, credential: Credential, c1: Bytes, c2: Bytes,
                  proof1: Proof, proof2: Proof, claims1: CeremonyClaims, claims2: CeremonyClaims)
    requires proof1.credentialId == id && proof2.credentialId == id
    requires s.requests == map[1 := Consumed(c1, proof1), 2 := Consumed(c2, proof2)]
    requires s.authenticators == map[id := credential]
    requires p.ceremony(c1, proof1, credential) == Some(claims1) && p.ceremony(c2, proof2, credential) == Some(claims2)
    ensures
      var t := Apply(p, Apply(p, s, Check(1)), Check(2));
      && t.requests == map[1 := Verified(c1, proof1, claims1), 2 := Verified(c2, proof2, claims2)]
      && t.authenticators == s.authenticators && t.commits == s.commits
  {
  }

  /** Both requests pass the ceremony while the stored counter is still the old one. */
  function TwoVerified(id: Bytes, credential: Credential, c1: Bytes, c2: Bytes, proof1: Proof, proof2: Proof): seq<Action> {
    Setup(id, credential, c1, c2) + [Consume(1, c1, proof1, 0)] + [Consume(2, c2, proof2, 0)] + [Check(1)] + [Check(2)]
  }

  /** The overtaken request, reached from the start: whatever the two counters, as long as
      both exceed the stored one, the request with the lower one is turned away although its
      ceremony succeeded and its authenticator counts. */
  lemma OvertakenRun(p: Provider, id: Bytes, credential: Credential, c1: Bytes, c2: Bytes, proof1: Proof, proof2: Proof,
                     claims1: CeremonyClaims, claims2: CeremonyClaims)
    requires c1 != c2 && proof1.credentialId == id && proof2.credentialId == id
    requires p.ceremony(c1, proof1, credential) == Some(claims1) && p.ceremony(c2, proof2, credential) == Some(claims2)
    requires credential.signCount < claims2.newSignCount <= claims1.newSignCount
    ensures
      var verified := TwoVerified(id, credential, c1, c2, proof1, proof2);
      var s := Run(p, Initial, verified);
      var t := Run(p, Initial, verified + [AdvanceCounter(1)] + [AdvanceCounter(2)]);
      && s.requests == map[1 := Verified(c1, proof1, claims1), 2 := Verified(c2, proof2, claims2)]
      && t.commits == [Commit(c1, proof1, claims1)] && 2 !in t.requests
  {
    var setup := Setup(id, credential, c1, c2);
    SetupRun(p, id, credential, c1, c2);
    var x1 := setup + [Consume(1, c1, proof1, 0)];
    var x2 := x1 + [Consume(2, c2, proof2, 0)];
    RunThen(p, setup, Consume(1, c1, proof1, 0));
    RunThen(p, x1, Consume(2, c2, proof2, 0));
    ConsumeBoth(p, Run(p, Initial, setup), c1, c2, proof1, proof2);
    RunThen(p, x2, Check(1));
    RunThen(p, x2 + [Check(1)], Check(2));
    CheckBoth(p, Run(p, Initial, x2), id, credential, c1, c2, proof1, proof2, claims1, claims2);
    var verified := TwoVerified(id, credential, c1, c2, proof1, proof2);
    OvertakenLast(p, verified, id, credential, c1, c2, proof1, proof2, claims1, claims2);
  }

  lemma OvertakenLast(p: Provider, verified: seq<Action>, id: Bytes, credential: Credential, c1: Bytes, c2: Bytes,
                      proof1: Proof, proof2: Proof, claims1: CeremonyClaims, claims2: CeremonyClaims)
    requires proof1.credentialId == id && proof2.credentialId == id
    requires credential.signCount < claims2.newSignCount <= claims1.newSignCount
    requires
      var s := Run(p, Initial, verified);
      && s.requests == map[1 := Verified(c1, proof1, claims1), 2 := Verified(c2, proof2, claims2)]
      && s.authenticators == map[id := credential] && s.commits == []
    ensures
      var t := Run(p, Initial, verified + [AdvanceCounter(1)] + [AdvanceCounter(2)]);
      t.commits == [Commit(c1, proof1, claims1)] && 2 !in t.requests
  {
    RunThen(p, verified, AdvanceCounter(1));
    RunThen(p, verified + [AdvanceCounter(1)], AdvanceCounter(2));
    Overtaken(p, Run(p, Initial, verified), 1, 2);
  }

  /** The numbers of one such run: stored 4, received 6 and then 5. */
  lemma OvertakenExample(p: Provider, ceremony: Ceremony, hash: Digest, id: Bytes, c1: Bytes, c2: Bytes)
    requires c1 != c2 && p.ceremony == CeremonyOf(AcceptingChecks(hash), ceremony)
    ensures IsOctets(DataWith(hash, 6)) && IsOctets(DataWith(hash, 5))
    ensures
      var credential := Credential("subject", "key", true, 4, false);
      var six, five := Proof(id, "", DataWith(hash, 6), ""), Proof(id, "", DataWith(hash, 5), "");
      var t := Run(p, Initial, TwoVerified(id, credential, c1, c2, six, five) + [AdvanceCounter(1)] + [AdvanceCounter(2)]);
      |t.commits| == 1 && t.commits[0].proof == six && 2 !in t.requests
  {
    assert Power256(4) == U32_LIMIT;
    DataWithCounter(hash, 6);
    DataWithCounter(hash, 5);
    var credential := Credential("subject", "key", true, 4, false);
    var six, five := Proof(id, "", DataWith(hash, 6), ""), Proof(id, "", DataWith(hash, 5), "");
    var checks := AcceptingChecks(hash);
    CeremonyOnWrittenData(checks, ceremony, c1, AuthenticatorData(hash, 1, 6), "", six, credential);
    CeremonyOnWrittenData(checks, ceremony, c2, AuthenticatorData(hash, 1, 5), "", five, credential);
    var claims1 := VerifyCeremony(checks, ceremony, c1, six, credential).value;
    var claims2 := VerifyCeremony(checks, ceremony, c2, five, credential).value;
    OvertakenRun(p, id, credential, c1, c2, six, five, claims1, claims2);
  }

  // ----- who can never obtain an assertion -------------------------------------------------------

  /** Every proof presented for the credential carries a counter of at most `n`. */
  predicate NeverAbove(actions: seq<Action>, id: Bytes, n: nat) {
    forall i | 0 <= i < |actions| ::
      actions[i].Consume? && actions[i].proof.credentialId == id ==> CounterIn(actions[i].proof) <= n
  }

  /** If the credential is registered, it is with a counter of at least `n`. */
  predicate RegisteredFrom(actions: seq<Action>, id: Bytes, n: nat) {
    forall i | 0 <= i < |actions| ::
      actions[i].Register? && actions[i].credentialId == id ==> actions[i].credential.signCount >= n
  }

  predicate StuckRequest(s: State, id: Bytes, n: nat, r: nat) {
    r in s.requests ==>
      && (s.requests[r].Consumed? && s.requests[r].proof.credentialId == id ==> CounterIn(s.requests[r].proof) <= n)
      && (s.requests[r].Verified? && s.requests[r].proof.credentialId == id ==> s.requests[r].claims.newSignCount <= n)
  }

  ghost predicate Stuck(s: State, id: Bytes, n: nat) {
    && (id in s.authenticators ==> s.authenticators[id].signCount >= n)
    && (forall r :: StuckRequest(s, id, n, r))
    && (forall i | 0 <= i < |s.commits| :: s.commits[i].CredentialId() != id)
  }

  /** A step that brings no request forward past the ceremony, and no commit. */
  lemma QuietStuck(s: State, t: State, id: Bytes, n: nat, r: nat)
    requires Stuck(s, id, n)
    requires id in t.authenticators ==> t.authenticators[id].signCount >= n
    requires forall q | q in t.requests && q != r :: q in s.requests && t.requests[q] == s.requests[q]
    requires StuckRequest(t, id, n, r)
    requires t.commits == s.commits || (t.commits != [] && t.commits[..|t.commits| - 1] == s.commits
                                        && t.commits[|t.commits| - 1].CredentialId() != id)
    ensures Stuck(t, id, n)
  {
    forall q ensures StuckRequest(t, id, n, q) { assert StuckRequest(s, id, n, q); }
    forall i | 0 <= i < |t.commits| ensures t.commits[i].CredentialId() != id {
      if i < |s.commits| { assert t.commits[i] == s.commits[i]; }
    }
  }

  lemma StuckCheck(p: Provider, s: State, id: Bytes, n: nat, r: nat, phase: Phase)
    requires ReadsCounter(p) && Stuck(s, id, n) && r in s.requests && s.requests[r] == phase && phase.Consumed?
    ensures Stuck(CheckStep(p, s, r, phase), id, n)
  {
    assert StuckRequest(s, id, n, r);
    QuietStuck(s, CheckStep(p, s, r, phase), id, n, r);
  }

  lemma StuckAdvance(s: State, id: Bytes, n: nat, r: nat, phase: Phase)
    requires Stuck(s, id, n) && r in s.requests && s.requests[r] == phase && phase.Verified?
    ensures Stuck(AdvanceStep(s, r, phase), id, n)
  {
    assert StuckRequest(s, id, n, r);
    var t := AdvanceStep(s, r, phase);
    assert t.commits != s.commits ==> t.commits[..|t.commits| - 1] == s.commits;
    QuietStuck(s, t, id, n, r);
  }

  /** Past the update, a request has no more to do with counters. */
  predicate Later(a: Action) {
    a.SealAssertion? || a.ReadHead? || a.SealEvent? || a.Append? || a.Abort?
  }

  lemma LaterPhase(p: Provider, s: State, a: Action, phase: Phase)
    requires Later(a) && a.r in s.requests && s.requests[a.r] == phase
    ensures
      var t := RequestStep(p, s, a, phase);
      a.r in t.requests ==> t.requests[a.r] == phase || t.requests[a.r].Issued?
  {
  }

  lemma StuckLater(p: Provider, s: State, id: Bytes, n: nat, a: Action, phase: Phase)
    requires Stuck(s, id, n) && Later(a) && a.r in s.requests && s.requests[a.r] == phase
    ensures Stuck(RequestStep(p, s, a, phase), id, n)
  {
    LaterPhase(p, s, a, phase);
    RequestEffect(p, s, a, phase);
    assert StuckRequest(s, id, n, a.r);
    QuietStuck(s, RequestStep(p, s, a, phase), id, n, a.r);
  }

  lemma StuckOther(p: Provider, s: State, id: Bytes, n: nat, a: Action)
    requires Stuck(s, id, n) && !OfRequest(a) && NeverAbove([a], id, n) && RegisteredFrom([a], id, n)
    ensures Stuck(Apply(p, s, a), id, n)
  {
    assert [a][0] == a;
    var r := if a.Consume? then a.r else 0;
    assert StuckRequest(s, id, n, r);
    QuietStuck(s, Apply(p, s, a), id, n, r);
  }

  lemma StuckApply(p: Provider, s: State, id: Bytes, n: nat, a: Action)
    requires ReadsCounter(p) && Stuck(s, id, n) && NeverAbove([a], id, n) && RegisteredFrom([a], id, n)
    ensures Stuck(Apply(p, s, a), id, n)
  {
    if !OfRequest(a) {
      StuckOther(p, s, id, n, a);
    } else if a.r in s.requests {
      var phase := s.requests[a.r];
      if a.Check? {
        if phase.Consumed? { StuckCheck(p, s, id, n, a.r, phase); }
      } else if a.AdvanceCounter? {
        if phase.Verified? { StuckAdvance(s, id, n, a.r, phase); }
      } else {
        StuckLater(p, s, id, n, a, phase);
      }
    }
  }

  lemma {:induction false} StuckRun(p: Provider, id: Bytes, n: nat, actions: seq<Action>)
    requires ReadsCounter(p) && NeverAbove(actions, id, n) && RegisteredFrom(actions, id, n)
    ensures Stuck(Run(p, Initial, actions), id, n)
  {
    if actions != [] {
      var k := |actions| - 1;
      StuckRun(p, id, n, actions[..k]);
      assert NeverAbove([actions[k]], id, n) && RegisteredFrom([actions[k]], id, n);
      StuckApply(p, Run(p, Initial, actions[..k]), id, n, actions[k]);
    }
  }

  /** If no proof ever presented for a credential carries a counter above the one it was
      registered with, no run of the provider commits an update or returns an assertion for
      it. With `n` zero: an authenticator that does not count is never let in, although its
      ceremonies succeed. */
  lemma NeverLetIn(p: Provider, id: Bytes, n: nat, actions: seq<Action>)
    requires AuditLog.Honest(p.log) && ReadsCounter(p)
    requires NeverAbove(actions, id, n) && RegisteredFrom(actions, id, n)
    ensures
      var s := Run(p, Initial, actions);
      && (forall i | 0 <= i < |s.commits| :: s.commits[i].CredentialId() != id)
      && (forall i | 0 <= i < |s.returned| ::
            s.returned[i].commit < |s.commits| && CommitOf(s, i).CredentialId() != id)
  {
    StuckRun(p, id, n, actions);
    EveryAssertionIsAccountedFor(p, actions);
  }
}
