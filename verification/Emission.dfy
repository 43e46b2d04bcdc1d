/** Issuing credentials on sealed decisions: at most one lease request per decision. */
module Emission {
  import opened Basics
  import opened PolicyEngine
  import AuditSeal

  datatype Order = Order(verb: Bytes, resourceId: Bytes, decision: Option<DecisionResponse>)

  datatype LeaseRequest = LeaseRequest(path: Bytes, ttlSeconds: int, decision: DecisionResponse)

  /** Refused and failed are told apart; only an allowed result carries a lease. */
  datatype EmitResult =
    | Allowed(leaseId: Bytes)
    | Denied(reasons: seq<Bytes>)
    | Failed

  /** The policy engine's verdict on a decision; no answer is a transport failure. */
  type Verifier = DecisionResponse -> Option<Verdict>

  function OpenBaoPath(verb: Bytes, resourceId: Bytes): Option<Bytes> {
    if verb == "db.connect" then Some("database/creds/" + resourceId) else None
  }

  /** The lifetime asked for is the decision's, to the second, and nobody else's. */
  function LeaseTtl(d: DecisionResponse): int {
    if d.maxTtl.Some? then d.maxTtl.value.seconds else 0
  }

  /** It is the lifetime that was signed exactly when it is not negative: the seal counts a
      negative lifetime as zero, the lease request passes it on. */
  lemma LeaseTtlIsSignedTtl(d: DecisionResponse)
    ensures LeaseTtl(d) == TtlOf(d.maxTtl) <==> LeaseTtl(d) >= 0
  {
  }

  /** Both at once: a decision sealed with no lifetime verifies with a negative one put in,
      and the lease is then requested with it. */
  lemma NegativeTtlPasses(c: Crypto, keys: seq<AuditSeal.VerifyingKey>, d: DecisionResponse, seconds: I64)
    requires TtlOf(d.maxTtl) == 0 && seconds < 0
    ensures
      var altered := d.(maxTtl := Some(Duration(seconds, 0)));
      && PolicyEngine.VerifyDecision(c, keys, Some(altered)) == PolicyEngine.VerifyDecision(c, keys, Some(d))
      && LeaseTtl(altered) == seconds && LeaseTtl(altered) != TtlOf(altered.maxTtl)
  {
    VerdictIgnoresNegativeTtl(c, keys, d, Some(Duration(seconds, 0)));
  }

  predicate Emittable(verify: Verifier, order: Order) {
    && order.decision.Some?
    && verify(order.decision.value) == Some(Valid)
    && order.decision.value.effect == EFFECT_ALLOW
  }

  /** A request is justified by a verified ALLOW decision and carries its lifetime. */
  predicate Justified(verify: Verifier, x: LeaseRequest) {
    && verify(x.decision) == Some(Valid)
    && x.decision.effect == 1
    && (x.decision.maxTtl.None? ==> x.ttlSeconds == 0)
    && (x.decision.maxTtl.Some? ==> x.ttlSeconds == x.decision.maxTtl.value.seconds)
  }

  predicate OncePerDecision(requests: seq<LeaseRequest>) {
    forall i, j | 0 <= i < j < |requests| :: requests[i].decision.decisionHash != requests[j].decision.decisionHash
  }

  function HashOf(order: Order): Bytes {
    if order.decision.Some? then order.decision.value.decisionHash else ""
  }

  // ----- the issuer object -------------------------------------------------------------------------

  /** As long as the object lives, a decision once marked is never forgotten. */
  class ConsumedDecisions {
    var consumed: set<Bytes>

    constructor ()
      ensures consumed == {}
    {
      consumed := {};
    }

    method MarkConsumed(decisionHash: Bytes) returns (already: bool)
      modifies this
      ensures already <==> decisionHash in old(consumed)
      ensures consumed == old(consumed) + {decisionHash}
    {
      already := decisionHash in consumed;
      if !already { consumed := consumed + {decisionHash}; }
    }
  }

  class Issuer {
    const store: ConsumedDecisions
    var requests: seq<LeaseRequest>

    constructor (store: ConsumedDecisions)
      ensures this.store == store && requests == []
    {
      this.store := store;
      requests := [];
    }

    /** Every request made so far is marked, and none shares its decision. */
    ghost predicate Valid()
      reads this, store
    {
      && OncePerDecision(requests)
      && forall i | 0 <= i < |requests| :: requests[i].decision.decisionHash in store.consumed
    }

    /** `issueLease` is the secret engine's answer to a path and a lifetime. A lease is
        requested exactly when the decision verifies, allows, was not used before and the
        verb is the one that has an engine; the result is allowed exactly when moreover the
        engine answers, and every other outcome names its reason. */
    method Emit(verify: Verifier, issueLease: (Bytes, int) -> Option<Bytes>, order: Order) returns (r: EmitResult)
      requires Valid()
      modifies this, store
      ensures Valid()
      ensures order.decision.None? ==> r == Denied(["decision_absente"])
      ensures order.decision.Some? ==>
        var d := order.decision.value;
        var verdict, allowed, used := verify(d), d.effect == 1, d.decisionHash in old(store.consumed);
        var granted := verdict == Some(PolicyEngine.Valid) && allowed && !used && order.verb == "db.connect";
        && (verdict.None? ==> r.Failed?)
        && (verdict.Some? && verdict.value.Invalid? ==> r == Denied(["decision_invalide:" + verdict.value.reason]))
        && (verdict == Some(PolicyEngine.Valid) && !allowed ==> r == Denied(d.reasons))
        && (verdict == Some(PolicyEngine.Valid) && allowed && used ==> r == Denied(["decision_deja_consommee"]))
        && (verdict == Some(PolicyEngine.Valid) && allowed && !used && order.verb != "db.connect" ==>
              r == Denied(["moteur_non_supporte:" + order.verb]))
        && (granted ==>
              && |requests| == |old(requests)| + 1 && requests[..|old(requests)|] == old(requests)
              && var made := requests[|old(requests)|];
              && Justified(verify, made) && made.decision == d && made.path == "database/creds/" + order.resourceId
              && var lease := issueLease(made.path, made.ttlSeconds);
              && (lease.None? ==> r.Failed?)
              && (lease.Some? ==> r == Allowed(lease.value)))
        && (!granted ==> requests == old(requests) && !r.Allowed?)
        && store.consumed == old(store.consumed) +
             (if verdict == Some(PolicyEngine.Valid) && allowed then {d.decisionHash} else {})
      ensures order.decision.None? ==> requests == old(requests) && store.consumed == old(store.consumed)
    {
      if order.decision.None? { return Denied(["decision_absente"]); }
      var decision := order.decision.value;
      var verdict := verify(decision);
      if verdict.None? { return Failed; }
      if verdict.value.Invalid? { return Denied(["decision_invalide:" + verdict.value.reason]); }
      if decision.effect != EFFECT_ALLOW { return Denied(decision.reasons); }
      var already := store.MarkConsumed(decision.decisionHash);
      if already { return Denied(["decision_deja_consommee"]); }
      var path := OpenBaoPath(order.verb, order.resourceId);
      if path.None? { return Denied(["moteur_non_supporte:" + order.verb]); }
      var ttlSeconds := LeaseTtl(decision);
      requests := requests + [LeaseRequest(path.value, ttlSeconds, decision)];
      var lease := issueLease(path.value, ttlSeconds);
      if lease.None? { return Failed; }
      r := Allowed(lease.value);
    }
  }
}
