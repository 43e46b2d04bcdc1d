/** The identity store: one-time challenges and registered authenticators. */
module IdentityStore {
  import opened Basics
  import opened Integers
  import opened WebAuthn

  datatype Challenge = Challenge(subjectId: Bytes, kind: Bytes, expiresAt: int, used: bool)

  type Challenges = map<Bytes, Challenge>

  type Authenticators = map<Bytes, Credential>

  const AUTHENTICATION: Bytes := "authentication"

  /** The condition of the update that consumes a challenge. */
  predicate Consumable(challenges: Challenges, challenge: Bytes, kind: Bytes, now: int) {
    && challenge in challenges
    && challenges[challenge].kind == kind
    && !challenges[challenge].used
    && challenges[challenge].expiresAt > now
  }

  function MarkUsed(challenges: Challenges, challenge: Bytes): Challenges
    requires challenge in challenges
  {
    challenges[challenge := challenges[challenge].(used := true)]
  }

  /** The condition of the update that advances a counter: strict progress, whether or not
      the authenticator is known to support counters. */
  predicate Advances(authenticators: Authenticators, credentialId: Bytes, received: nat) {
    credentialId in authenticators && authenticators[credentialId].signCount < received
  }

  function Advance(authenticators: Authenticators, credentialId: Bytes, received: nat): Authenticators
    requires credentialId in authenticators
  {
    authenticators[credentialId := authenticators[credentialId].(signCount := received)]
  }

  /** A successful ceremony, whatever row it was made against, is followed by a successful
      counter update exactly when the counter in the octets of the request exceeds the one
      stored at the time of the update. */
  lemma CeremonyThenAdvance(k: Checks, ceremony: Ceremony, challenge: Bytes, proof: Proof, seen: Credential,
                            authenticators: Authenticators)
    requires VerifyCeremony(k, ceremony, challenge, proof, seen).Ok?
    ensures
      var id, claims := proof.credentialId, VerifyCeremony(k, ceremony, challenge, proof, seen).value;
      && |proof.authenticatorData| >= 37
      && (Advances(authenticators, id, claims.newSignCount) <==>
            id in authenticators && authenticators[id].signCount < BigEndianValue(proof.authenticatorData[33..37]))
  {
  }

  class Store {
    var challenges: Challenges
    var authenticators: Authenticators

    constructor ()
      ensures challenges == map[] && authenticators == map[]
    {
      challenges := map[];
      authenticators := map[];
    }

    /** An insert; a challenge that exists already is a conflict. */
    method IssueChallenge(challenge: Bytes, subjectId: Bytes, kind: Bytes, now: int, ttl: int) returns (ok: bool)
      modifies this
      ensures ok <==> challenge !in old(challenges)
      ensures challenges ==
        if ok then old(challenges)[challenge := Challenge(subjectId, kind, now + ttl, false)] else old(challenges)
      ensures authenticators == old(authenticators)
    {
      ok := challenge !in challenges;
      if ok { challenges := challenges[challenge := Challenge(subjectId, kind, now + ttl, false)]; }
    }

    /** Absent, expired, used and of the other kind are all refused alike; a challenge that
        is handed out can never be handed out again. */
    method ConsumeChallenge(challenge: Bytes, kind: Bytes, now: int) returns (subjectId: Option<Bytes>)
      modifies this
      ensures subjectId.Some? <==>
        && challenge in old(challenges) && old(challenges)[challenge].kind == kind
        && !old(challenges)[challenge].used && now < old(challenges)[challenge].expiresAt
      ensures subjectId.Some? ==>
        && subjectId.value == old(challenges)[challenge].subjectId
        && challenges == old(challenges)[challenge := old(challenges)[challenge].(used := true)]
      ensures subjectId.None? ==> challenges == old(challenges)
      ensures authenticators == old(authenticators)
    {
      if !Consumable(challenges, challenge, kind, now) { return None; }
      subjectId := Some(challenges[challenge].subjectId);
      challenges := MarkUsed(challenges, challenge);
    }

    method InsertAuthenticator(credentialId: Bytes, credential: Credential) returns (ok: bool)
      modifies this
      ensures ok <==> credentialId !in old(authenticators)
      ensures authenticators == if ok then old(authenticators)[credentialId := credential] else old(authenticators)
      ensures challenges == old(challenges)
    {
      ok := credentialId !in authenticators;
      if ok { authenticators := authenticators[credentialId := credential]; }
    }

    method FindAuthenticator(credentialId: Bytes) returns (r: Option<Credential>)
      ensures r == if credentialId in authenticators then Some(authenticators[credentialId]) else None
    {
      r := if credentialId in authenticators then Some(authenticators[credentialId]) else None;
    }

    /** The same counter value is never accepted twice, and the stored one never goes back. */
    method AdvanceSignCount(credentialId: Bytes, received: nat) returns (ok: bool)
      modifies this
      ensures ok <==> credentialId in old(authenticators) && old(authenticators)[credentialId].signCount < received
      ensures authenticators ==
        if ok then old(authenticators)[credentialId := old(authenticators)[credentialId].(signCount := received)]
        else old(authenticators)
      ensures ok ==> forall later: nat | later <= received :: !Advances(authenticators, credentialId, later)
      ensures challenges == old(challenges)
    {
      ok := Advances(authenticators, credentialId, received);
      if ok { authenticators := Advance(authenticators, credentialId, received); }
    }
  }
}
