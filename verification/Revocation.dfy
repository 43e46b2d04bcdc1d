/** Revoking an authenticator takes effect at once: no ceremony succeeds for it any more. */
module Revocation {
  import opened Basics
  import opened WebAuthn
  import opened IdentityStore
  import opened Authentication
  import opened AuthenticationProofs
  import opened Counters

  ghost predicate RefusesRevoked(p: Provider) {
    forall challenge, proof, seen: Credential :: seen.revoked ==> p.ceremony(challenge, proof, seen).None?
  }

  lemma RealCeremonyRefusesRevoked(p: Provider, k: Checks, ceremony: Ceremony)
    requires p.ceremony == CeremonyOf(k, ceremony)
    ensures RefusesRevoked(p)
  {
  }

  lemma RevokeExact(p: Provider, s: State, id: Bytes)
    ensures
      var t := Apply(p, s, Revoke(id));
      && (id in s.authenticators ==>
            id in t.authenticators && t.authenticators[id] == s.authenticators[id].(revoked := true))
      && (forall other | other != id :: (other in t.authenticators <==> other in s.authenticators)
            && (other in s.authenticators ==> t.authenticators[other] == s.authenticators[other]))
      && t.requests == s.requests && t.commits == s.commits && t.returned == s.returned
  {
  }

  predicate Revoked(s: State, id: Bytes) {
    id in s.authenticators && s.authenticators[id].revoked
  }

  /** The request was past its ceremony already. */
  predicate WasVerified(s: State, t: State, id: Bytes, r: nat) {
    r in t.requests && t.requests[r].Verified? && t.requests[r].proof.credentialId == id ==>
      r in s.requests && s.requests[r] == t.requests[r]
  }

  predicate WasProven(s: State, x: Commit) {
    exists r :: r in s.requests && s.requests[r] == Verified(x.challenge, x.proof, x.claims)
  }

  /** What can still happen after `s`: nothing but what had passed its ceremony by then. */
  ghost predicate Stopped(s: State, t: State, id: Bytes) {
    && Revoked(t, id)
    && s.commits <= t.commits
    && (forall r :: WasVerified(s, t, id, r))
    && (forall i | |s.commits| <= i < |t.commits| :: t.commits[i].CredentialId() == id ==> WasProven(s, t.commits[i]))
  }

  /** A step that changes one request, to no newly verified one, and adds at most one commit,
      of another credential or one that was proven. */
  lemma StoppedStep(s: State, t: State, u: State, id: Bytes, r: nat)
    requires Stopped(s, t, id) && Revoked(u, id)
    requires forall q | q in u.requests && q != r :: q in t.requests && u.requests[q] == t.requests[q]
    requires WasVerified(s, u, id, r)
    requires u.commits == t.commits
      || (u.commits != [] && u.commits[..|u.commits| - 1] == t.commits
          && (u.commits[|u.commits| - 1].CredentialId() == id ==> WasProven(s, u.commits[|u.commits| - 1])))
    ensures Stopped(s, u, id)
  {
    forall q ensures WasVerified(s, u, id, q) { assert WasVerified(s, t, id, q); }
    forall i | |s.commits| <= i < |u.commits| && u.commits[i].CredentialId() == id
      ensures WasProven(s, u.commits[i])
    {
      if i < |t.commits| { assert u.commits[i] == t.commits[i]; }
    }
    assert s.commits <= u.commits;
  }

  lemma StoppedCheck(p: Provider, s: State, t: State, id: Bytes, r: nat, phase: Phase)
    requires RefusesRevoked(p) && Stopped(s, t, id) && r in t.requests && t.requests[r] == phase && phase.Consumed?
    ensures Stopped(s, CheckStep(p, t, r, phase), id)
  {
    StoppedStep(s, t, CheckStep(p, t, r, phase), id, r);
  }

  lemma StoppedAdvance(s: State, t: State, id: Bytes, r: nat, phase: Phase)
    requires Stopped(s, t, id) && r in t.requests && t.requests[r] == phase && phase.Verified?
    ensures Stopped(s, AdvanceStep(t, r, phase), id)
  {
    assert WasVerified(s, t, id, r);
    var u := AdvanceStep(t, r, phase);
    assert u.commits != t.commits ==> u.commits[..|u.commits| - 1] == t.commits;
    StoppedStep(s, t, u, id, r);
  }

  lemma StoppedLater(p: Provider, s: State, t: State, id: Bytes, a: Action, phase: Phase)
    requires Stopped(s, t, id) && Later(a) && a.r in t.requests && t.requests[a.r] == phase
    ensures Stopped(s, RequestStep(p, t, a, phase), id)
  {
    LaterPhase(p, t, a, phase);
    RequestEffect(p, t, a, phase);
    assert WasVerified(s, t, id, a.r);
    StoppedStep(s, t, RequestStep(p, t, a, phase), id, a.r);
  }

  lemma StoppedOther(p: Provider, s: State, t: State, id: Bytes, a: Action)
    requires Stopped(s, t, id) && !OfRequest(a)
    ensures Stopped(s, Apply(p, t, a), id)
  {
    var r := if a.Consume? then a.r else 0;
    assert WasVerified(s, t, id, r);
    StoppedStep(s, t, Apply(p, t, a), id, r);
  }

  lemma StoppedApply(p: Provider, s: State, t: State, id: Bytes, a: Action)
    requires RefusesRevoked(p) && Stopped(s, t, id)
    ensures Stopped(s, Apply(p, t, a), id)
  {
    if !OfRequest(a) {
      StoppedOther(p, s, t, id, a);
    } else if a.r in t.requests {
      var phase := t.requests[a.r];
      if a.Check? {
        if phase.Consumed? { StoppedCheck(p, s, t, id, a.r, phase); }
      } else if a.AdvanceCounter? {
        if phase.Verified? { StoppedAdvance(s, t, id, a.r, phase); }
      } else {
        StoppedLater(p, s, t, id, a, phase);
      }
    }
  }

  /** From the moment an authenticator is revoked, whatever happens, it stays revoked, no
      request passes its ceremony any more, and only those that had passed it before can
      still commit their counter. */
  lemma {:induction false} NoCeremonyAfterRevocation(p: Provider, s: State, id: Bytes, future: seq<Action>)
    requires RefusesRevoked(p) && id in s.authenticators
    ensures Stopped(s, Run(p, Apply(p, s, Revoke(id)), future), id)
  {
    if future != [] {
      var n := |future| - 1;
      NoCeremonyAfterRevocation(p, s, id, future[..n]);
      StoppedApply(p, s, Run(p, Apply(p, s, Revoke(id)), future[..n]), id, future[n]);
    }
  }
}
