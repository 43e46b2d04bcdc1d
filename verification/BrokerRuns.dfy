/** Access requests under every interleaving, on top of the credential issuer with all its
    other clients and its restarts. */
module BrokerRuns {
  import opened Basics
  import opened PolicyEngine
  import opened Emission
  import opened AccessBroker
  import Issuing = EmissionRuns

  /** One access request: what the client sent, the identity service as it answered then,
      the request identifier and the clock. */
  datatype Visit = Visit(identity: Identity, assertion: Bytes, body: Body, requestId: Bytes, now: int)

  datatype Phase =
    | Arrived(visit: Visit)
    | Granted(visit: Visit, asked: DecisionRequest, signed: DecisionResponse)
    | Emitting(visit: Visit, asked: DecisionRequest, signed: DecisionResponse)

  /** A lease identifier handed to a client; `made` is the rank of its lease request. */
  datatype Returned = Returned(
    visit: Visit, asked: DecisionRequest, signed: DecisionResponse, made: nat, leaseId: Bytes)

  datatype State = State(issuer: Issuing.State, visits: map<nat, Phase>, returned: seq<Returned>)

  datatype Action =
    | Arrive(b: nat, visit: Visit)
    | Ask(b: nat, answer: Option<DecisionResponse>)
    | Place(b: nat)
    | Collect(b: nat)
    | GiveUp(b: nat)
    | IssuerStep(a: Issuing.Action)

  const Initial: State := State(Issuing.Initial, map[], [])

  function Leave(s: State, b: nat): State {
    s.(visits := s.visits - {b})
  }

  function QuestionOf(v: Visit): Option<DecisionRequest> {
    var requester := v.identity(v.assertion, v.body.expectedAuthorityDomain);
    if requester.Valid? then Question(v.identity, RequestFor(requester, v.body, v.requestId, v.now), v.now) else None
  }

  /** The answer is the policy engine's to this one question. */
  function AskStep(s: State, b: nat, visit: Visit, answer: Option<DecisionResponse>): State {
    var asked := QuestionOf(visit);
    if asked.Some? && answer.Some? && answer.value.effect == EFFECT_ALLOW
    then s.(visits := s.visits[b := Granted(visit, asked.value, answer.value)])
    else Leave(s, b)
  }

  function OrderStep(verify: Verifier, s: State, b: nat, p: Phase): State
    requires p.Granted?
  {
    if b in s.issuer.calls then s
    else s.(visits := s.visits[b := Emitting(p.visit, p.asked, p.signed)],
            issuer := Issuing.Apply(verify, s.issuer, Issuing.Receive(b, OrderFor(p.visit.body, p.signed))))
  }

  /** A visit reads the issuer's answer once; a call that the issuer ended, or lost in a
      restart, leaves it without a lease. */
  function CollectStep(verify: Verifier, s: State, b: nat, p: Phase): State
    requires p.Emitting?
  {
    if b !in s.issuer.calls then Leave(s, b)
    else if !s.issuer.calls[b].Finished? then s
    else
      var done := s.issuer.calls[b];
      var after := Leave(s, b).(issuer := Issuing.Apply(verify, s.issuer, Issuing.Abort(b)));
      if done.lease.Some?
      then after.(returned := s.returned + [Returned(p.visit, p.asked, p.signed, done.made, done.lease.value)])
      else after
  }

  /** The issuer's other clients do not call under the name of a visit in progress. */
  predicate Foreign(s: State, a: Issuing.Action) {
    a.Receive? ==> a.e !in s.visits
  }

  function VisitStep(verify: Verifier, s: State, a: Action, b: nat, p: Phase): State {
    match a
    case Ask(_, answer) => if p.Arrived? then AskStep(s, b, p.visit, answer) else s
    case Place(_) => if p.Granted? then OrderStep(verify, s, b, p) else s
    case Collect(_) => if p.Emitting? then CollectStep(verify, s, b, p) else s
    case GiveUp(_) => Leave(s, b)
    case _ => s
  }

  function Apply(verify: Verifier, s: State, a: Action): State {
    match a
    case Arrive(b, visit) =>
      if b in s.visits || b in s.issuer.calls
         || !visit.identity(visit.assertion, visit.body.expectedAuthorityDomain).Valid?
      then s else s.(visits := s.visits[b := Arrived(visit)])
    case IssuerStep(x) => if Foreign(s, x) then s.(issuer := Issuing.Apply(verify, s.issuer, x)) else s
    case _ => if a.b in s.visits then VisitStep(verify, s, a, a.b, s.visits[a.b]) else s
  }

  function Run(verify: Verifier, s: State, actions: seq<Action>): State {
    if actions == [] then s
    else Apply(verify, Run(verify, s, actions[..|actions| - 1]), actions[|actions| - 1])
  }

  /** A client may leave anywhere; its call to the issuer goes on without it. */
  lemma GiveUpExact(verify: Verifier, s: State, b: nat)
    ensures
      var t := Apply(verify, s, GiveUp(b));
      && b !in t.visits && t.issuer == s.issuer && t.returned == s.returned
      && forall c | c != b :: (c in t.visits <==> c in s.visits) && (c in s.visits ==> t.visits[c] == s.visits[c])
  {
  }

  // ----- the invariant ---------------------------------------------------------------------------

  ghost predicate EarnedBy(v: Visit, asked: DecisionRequest, signed: DecisionResponse) {
    Earned(v.identity, v.assertion, v.body, v.requestId, v.now, asked, signed)
  }

  ghost predicate VisitFine(s: State, b: nat) {
    b in s.visits ==>
      var p := s.visits[b];
      && (p.Arrived? ==> p.visit.identity(p.visit.assertion, p.visit.body.expectedAuthorityDomain).Valid?)
      && (!p.Arrived? ==> EarnedBy(p.visit, p.asked, p.signed))
      && (!p.Emitting? ==> b !in s.issuer.calls)
      && (p.Emitting? && b in s.issuer.calls ==> s.issuer.calls[b].order == OrderFor(p.visit.body, p.signed))
  }

  /** The lease stands for one request, made for the decision that the visit earned. */
  ghost predicate ReturnedFine(verify: Verifier, requests: seq<Issuing.Made>, x: Returned) {
    && EarnedBy(x.visit, x.asked, x.signed)
    && x.made < |requests|
    && requests[x.made].request.decision == x.signed
    && Justified(verify, requests[x.made].request)
    && requests[x.made].request.path == "database/creds/" + x.visit.body.resource.id
  }

  /** A request whose answer is still to be collected was not returned. */
  predicate NotReturned(s: State, e: nat, i: int) {
    e in s.issuer.calls && s.issuer.calls[e].Finished? && 0 <= i < |s.returned| ==>
      s.issuer.calls[e].made != s.returned[i].made
  }

  predicate EachOnce(returned: seq<Returned>) {
    forall i, j | 0 <= i < j < |returned| :: returned[i].made != returned[j].made
  }

  ghost predicate Sound(verify: Verifier, s: State) {
    && Issuing.Sound(verify, s.issuer)
    && (forall b :: VisitFine(s, b))
    && (forall e, i :: NotReturned(s, e, i))
    && (forall i | 0 <= i < |s.returned| :: ReturnedFine(verify, s.issuer.requests, s.returned[i]))
    && EachOnce(s.returned)
  }

  // ----- what a step of the issuer can do ----------------------------------------------------------

  /** Requests are only added; a call keeps its order; a call that finishes has the newest. */
  predicate IssuerMoves(s: Issuing.State, t: Issuing.State, a: Issuing.Action) {
    && s.requests <= t.requests
    && (forall e | e in t.calls ::
          (e in s.calls && t.calls[e].order == s.calls[e].order) || a == Issuing.Receive(e, t.calls[e].order))
    && (forall e | e in t.calls && t.calls[e].Finished? ::
          (e in s.calls && t.calls[e] == s.calls[e]) || t.calls[e].made == |s.requests|)
  }

  lemma IssuerEffect(verify: Verifier, s: Issuing.State, a: Issuing.Action)
    ensures IssuerMoves(s, Issuing.Apply(verify, s, a), a)
  {
  }

  lemma ReturnedStays(verify: Verifier, requests: seq<Issuing.Made>, more: seq<Issuing.Made>, x: Returned)
    requires ReturnedFine(verify, requests, x) && requests <= more
    ensures ReturnedFine(verify, more, x)
  {
  }

  lemma SoundIssuerStep(verify: Verifier, s: State, x: Issuing.Action)
    requires Sound(verify, s) && Foreign(s, x)
    ensures Sound(verify, s.(issuer := Issuing.Apply(verify, s.issuer, x)))
  {
    var t := s.(issuer := Issuing.Apply(verify, s.issuer, x));
    Issuing.SoundApply(verify, s.issuer, x);
    IssuerEffect(verify, s.issuer, x);
    forall b ensures VisitFine(t, b) { assert VisitFine(s, b); }
    forall i | 0 <= i < |t.returned| ensures ReturnedFine(verify, t.issuer.requests, t.returned[i]) {
      ReturnedStays(verify, s.issuer.requests, t.issuer.requests, s.returned[i]);
    }
    forall e, i ensures NotReturned(t, e, i) {
      assert NotReturned(s, e, i);
      assert 0 <= i < |s.returned| ==> ReturnedFine(verify, s.issuer.requests, s.returned[i]);
    }
  }

  // ----- what a visit can do -------------------------------------------------------------------------

  lemma SoundQuiet(verify: Verifier, s: State, t: State, b: nat)
    requires Sound(verify, s) && t.issuer == s.issuer && t.returned == s.returned
    requires forall c | c in t.visits && c != b :: c in s.visits && t.visits[c] == s.visits[c]
    requires VisitFine(t, b)
    ensures Sound(verify, t)
  {
    forall c ensures VisitFine(t, c) { assert VisitFine(s, c); }
    forall e, i ensures NotReturned(t, e, i) { assert NotReturned(s, e, i); }
  }

  lemma SoundAsk(verify: Verifier, s: State, b: nat, visit: Visit, answer: Option<DecisionResponse>)
    requires Sound(verify, s) && b in s.visits && s.visits[b] == Arrived(visit)
    ensures Sound(verify, AskStep(s, b, visit, answer))
  {
    assert VisitFine(s, b);
    var asked := QuestionOf(visit);
    if asked.Some? && answer.Some? && answer.value.effect == EFFECT_ALLOW {
      QuestionEarns(visit.identity, visit.assertion, visit.body, visit.requestId, visit.now, asked.value, answer.value);
    }
    SoundQuiet(verify, s, AskStep(s, b, visit, answer), b);
  }

  lemma SoundOrder(verify: Verifier, s: State, b: nat, p: Phase)
    requires Sound(verify, s) && b in s.visits && s.visits[b] == p && p.Granted?
    ensures Sound(verify, OrderStep(verify, s, b, p))
  {
    assert VisitFine(s, b);
    var x := Issuing.Receive(b, OrderFor(p.visit.body, p.signed));
    var gone := Leave(s, b);
    SoundQuiet(verify, s, gone, b);
    SoundIssuerStep(verify, gone, x);
    var called := gone.(issuer := Issuing.Apply(verify, s.issuer, x));
    SoundQuiet(verify, called, OrderStep(verify, s, b, p), b);
  }

  lemma SoundCollect(verify: Verifier, s: State, b: nat, p: Phase)
    requires Sound(verify, s) && b in s.visits && s.visits[b] == p && p.Emitting?
    ensures Sound(verify, CollectStep(verify, s, b, p))
  {
    assert VisitFine(s, b);
    var gone := Leave(s, b);
    SoundQuiet(verify, s, gone, b);
    if b in s.issuer.calls && s.issuer.calls[b].Finished? {
      SoundIssuerStep(verify, gone, Issuing.Abort(b));
      if s.issuer.calls[b].lease.Some? { SoundReturn(verify, s, b, p); }
    }
  }

  lemma FinishedIsFine(verify: Verifier, s: State, b: nat, p: Phase)
    requires Sound(verify, s) && b in s.visits && s.visits[b] == p && p.Emitting?
    requires b in s.issuer.calls && s.issuer.calls[b].Finished? && s.issuer.calls[b].lease.Some?
    ensures
      var done := s.issuer.calls[b];
      ReturnedFine(verify, s.issuer.requests, Returned(p.visit, p.asked, p.signed, done.made, done.lease.value))
  {
    var done := s.issuer.calls[b];
    assert VisitFine(s, b) && Issuing.CallFine(verify, s.issuer, b) && Issuing.RequestFine(verify, s.issuer, done.made);
  }

  lemma AddReturned(verify: Verifier, s: State, x: Returned)
    requires Sound(verify, s) && ReturnedFine(verify, s.issuer.requests, x)
    requires forall e | e in s.issuer.calls && s.issuer.calls[e].Finished? :: s.issuer.calls[e].made != x.made
    requires forall i | 0 <= i < |s.returned| :: s.returned[i].made != x.made
    ensures Sound(verify, s.(returned := s.returned + [x]))
  {
    var t := s.(returned := s.returned + [x]);
    forall c ensures VisitFine(t, c) { assert VisitFine(s, c); }
    forall e, i ensures NotReturned(t, e, i) { assert NotReturned(s, e, i); }
  }

  lemma SoundReturn(verify: Verifier, s: State, b: nat, p: Phase)
    requires Sound(verify, s) && b in s.visits && s.visits[b] == p && p.Emitting?
    requires b in s.issuer.calls && s.issuer.calls[b].Finished? && s.issuer.calls[b].lease.Some?
    requires Sound(verify, Leave(s, b).(issuer := Issuing.Apply(verify, s.issuer, Issuing.Abort(b))))
    ensures Sound(verify, CollectStep(verify, s, b, p))
  {
    var after := Leave(s, b).(issuer := Issuing.Apply(verify, s.issuer, Issuing.Abort(b)));
    var done := s.issuer.calls[b];
    FinishedIsFine(verify, s, b, p);
    forall e | e in after.issuer.calls && after.issuer.calls[e].Finished?
      ensures after.issuer.calls[e].made != done.made
    {
      assert Issuing.Apart(s.issuer.calls, e, b);
    }
    forall i | 0 <= i < |s.returned|
      ensures s.returned[i].made != done.made
    {
      assert NotReturned(s, b, i);
    }
    AddReturned(verify, after, Returned(p.visit, p.asked, p.signed, done.made, done.lease.value));
  }

  lemma SoundApply(verify: Verifier, s: State, a: Action)
    requires Sound(verify, s)
    ensures Sound(verify, Apply(verify, s, a))
  {
    var t := Apply(verify, s, a);
    if a.IssuerStep? {
      if Foreign(s, a.a) { SoundIssuerStep(verify, s, a.a); }
    } else if a.Arrive? {
      assert VisitFine(s, a.b);
      SoundQuiet(verify, s, t, a.b);
    } else if a.b in s.visits {
      var p := s.visits[a.b];
      SoundQuiet(verify, s, Leave(s, a.b), a.b);
      if a.Ask? && p.Arrived? { SoundAsk(verify, s, a.b, p.visit, a.answer); }
      if a.Place? && p.Granted? { SoundOrder(verify, s, a.b, p); }
      if a.Collect? && p.Emitting? { SoundCollect(verify, s, a.b, p); }
    }
  }

  lemma {:induction false} EveryRunIsSound(verify: Verifier, actions: seq<Action>)
    ensures Sound(verify, Run(verify, Initial, actions))
  {
    if actions == [] {
      Issuing.EveryRunIsSound(verify, []);
    } else {
      EveryRunIsSound(verify, actions[..|actions| - 1]);
      SoundApply(verify, Run(verify, Initial, actions[..|actions| - 1]), actions[|actions| - 1]);
    }
  }

  /** Over every interleaving of access requests, other clients and restarts of the issuer,
      every lease identifier handed to a client was earned: its requester's assertion was
      valid, at least one approval was verified and shown to the policy engine, whose answer
      about that requester was an ALLOW; it stands for one lease request, made for that
      verified decision and its resource; and no request is handed out twice, so that one
      life of the issuer gives at most one lease for a decision. */
  lemma EveryLeaseIsEarned(verify: Verifier, actions: seq<Action>)
    ensures
      var s := Run(verify, Initial, actions);
      && (forall i | 0 <= i < |s.returned| :: ReturnedFine(verify, s.issuer.requests, s.returned[i]))
      && EachOnce(s.returned)
      && Issuing.OncePerLife(s.issuer.requests)
  {
    EveryRunIsSound(verify, actions);
  }

  // ----- a visit that nothing disturbs -----------------------------------------------------------

  function VisitActions(b: nat, visit: Visit, answer: Option<DecisionResponse>, lease: Option<Bytes>): seq<Action> {
    [] + [Arrive(b, visit)] + [Ask(b, answer)] + [Place(b)]
    + [IssuerStep(Issuing.CheckDecision(b))] + [IssuerStep(Issuing.MarkConsumed(b))]
    + [IssuerStep(Issuing.RequestLease(b, lease))] + [Collect(b)]
  }

  lemma RunThen(verify: Verifier, s: State, front: seq<Action>, last: Action)
    ensures Run(verify, s, front + [last]) == Apply(verify, Run(verify, s, front), last)
  {
    assert (front + [last])[..|front|] == front;
  }

  /** The visit up to its order: exactly when the requester is valid, the question can be
      asked and the answer is an ALLOW, an order is placed for the answer. */
  lemma OrderPlaced(verify: Verifier, s: State, b: nat, visit: Visit, answer: Option<DecisionResponse>)
    requires b !in s.visits && b !in s.issuer.calls
    ensures
      var t := Apply(verify, Apply(verify, Apply(verify, s, Arrive(b, visit)), Ask(b, answer)), Place(b));
      var requester := visit.identity(visit.assertion, visit.body.expectedAuthorityDomain);
      var asked := QuestionOf(visit);
      var placed := requester.Valid? && CanAsk(visit.identity, requester, visit.body) && answer.Some? && answer.value.effect == 1;
      && (placed ==>
            && asked.Some?
            && t.visits == s.visits[b := Emitting(visit, asked.value, answer.value)]
            && t.issuer == s.issuer.(calls := s.issuer.calls[b := Issuing.Received(OrderFor(visit.body, answer.value))])
            && t.returned == s.returned)
      && (!placed ==> b !in t.visits && t.issuer == s.issuer && t.returned == s.returned)
  {
    var requester := visit.identity(visit.assertion, visit.body.expectedAuthorityDomain);
    if requester.Valid? { CanAskExact(visit.identity, requester, visit.body, visit.requestId, visit.now); }
  }

  /** The issuer's three steps for a decision that verifies and was not used in this life. */
  lemma OrderServed(verify: Verifier, s: Issuing.State, b: nat, order: Order, d: DecisionResponse, lease: Option<Bytes>)
    requires b in s.calls && s.calls[b] == Issuing.Received(order)
    requires Issuing.Acceptable(verify, order, d) && d.decisionHash !in s.consumed
    ensures
      var t := Issuing.Apply(verify, Issuing.Apply(verify, Issuing.Apply(verify, s, Issuing.CheckDecision(b)),
                 Issuing.MarkConsumed(b)), Issuing.RequestLease(b, lease));
      && b in t.calls && t.calls[b] == Issuing.Finished(order, |s.requests|, lease)
      && t.requests == s.requests +
           [Issuing.Made(LeaseRequest("database/creds/" + order.resourceId, Issuing.Seconds(d), d), s.life)]
  {
  }

  /** A visit waits until its call has finished, and then takes the lease, if there is one, and
      leaves; if the call is gone, it leaves without. */
  lemma CollectExact(verify: Verifier, s: State, b: nat, visit: Visit, asked: DecisionRequest, signed: DecisionResponse)
    requires b in s.visits && s.visits[b] == Emitting(visit, asked, signed)
    ensures
      var t, gone := Apply(verify, s, Collect(b)), b !in s.issuer.calls;
      && (!gone && !s.issuer.calls[b].Finished? ==> t == s)
      && (gone || s.issuer.calls[b].Finished? ==>
            && b !in t.visits && b !in t.issuer.calls && t.issuer.requests == s.issuer.requests
            && t.returned == s.returned +
                 if gone || s.issuer.calls[b].lease.None? then []
                 else [Returned(visit, asked, signed, s.issuer.calls[b].made, s.issuer.calls[b].lease.value)])
  {
  }

  /** A visit that nothing disturbs is given the lease: its requester is valid, its question
      can be asked, the answer is a verified ALLOW that was not used in this life, the verb has
      an engine and the engine answers. */
  lemma UndisturbedVisit(verify: Verifier, s: State, b: nat, visit: Visit, signed: DecisionResponse, leaseId: Bytes)
    requires b !in s.visits && b !in s.issuer.calls
    requires
      var requester := visit.identity(visit.assertion, visit.body.expectedAuthorityDomain);
      requester.Valid? && CanAsk(visit.identity, requester, visit.body)
    requires signed.effect == 1 && verify(signed) == Some(Valid) && visit.body.verb == "db.connect"
    requires signed.decisionHash !in s.issuer.consumed
    ensures
      var t := Run(verify, s, VisitActions(b, visit, Some(signed), Some(leaseId)));
      var made := |s.issuer.requests|;
      && QuestionOf(visit).Some?
      && t.returned == s.returned + [Returned(visit, QuestionOf(visit).value, signed, made, leaseId)]
      && t.issuer.requests == s.issuer.requests +
           [Issuing.Made(LeaseRequest("database/creds/" + visit.body.resource.id, Issuing.Seconds(signed), signed),
                         s.issuer.life)]
  {
    var a0: seq<Action> := [];
    var a1 := a0 + [Arrive(b, visit)];
    var a2 := a1 + [Ask(b, Some(signed))];
    var a3 := a2 + [Place(b)];
    var a4 := a3 + [IssuerStep(Issuing.CheckDecision(b))];
    var a5 := a4 + [IssuerStep(Issuing.MarkConsumed(b))];
    var a6 := a5 + [IssuerStep(Issuing.RequestLease(b, Some(leaseId)))];
    RunThen(verify, s, a0, Arrive(b, visit));
    RunThen(verify, s, a1, Ask(b, Some(signed)));
    RunThen(verify, s, a2, Place(b));
    RunThen(verify, s, a3, IssuerStep(Issuing.CheckDecision(b)));
    RunThen(verify, s, a4, IssuerStep(Issuing.MarkConsumed(b)));
    RunThen(verify, s, a5, IssuerStep(Issuing.RequestLease(b, Some(leaseId))));
    RunThen(verify, s, a6, Collect(b));
    OrderPlaced(verify, s, b, visit, Some(signed));
    var placed := Run(verify, s, a3);
    var asked := QuestionOf(visit).value;
    Served(verify, placed, b, OrderFor(visit.body, signed), signed, Some(leaseId));
    CollectExact(verify, Run(verify, s, a6), b, visit, asked, signed);
  }

  lemma Served(verify: Verifier, s: State, b: nat, order: Order, d: DecisionResponse, lease: Option<Bytes>)
    requires b in s.issuer.calls && s.issuer.calls[b] == Issuing.Received(order)
    requires Issuing.Acceptable(verify, order, d) && d.decisionHash !in s.issuer.consumed
    ensures
      var t := Apply(verify, Apply(verify, Apply(verify, s, IssuerStep(Issuing.CheckDecision(b))),
                 IssuerStep(Issuing.MarkConsumed(b))), IssuerStep(Issuing.RequestLease(b, lease)));
      && t.visits == s.visits && t.returned == s.returned
      && b in t.issuer.calls && t.issuer.calls[b] == Issuing.Finished(order, |s.issuer.requests|, lease)
      && t.issuer.requests == s.issuer.requests +
           [Issuing.Made(LeaseRequest("database/creds/" + order.resourceId, Issuing.Seconds(d), d), s.issuer.life)]
  {
    OrderServed(verify, s.issuer, b, order, d, lease);
  }
}
