/** Emission calls under every interleaving. The store of used decisions lives in memory, so
    that it lasts as long as one life of the process. */
module EmissionRuns {
  import opened Basics
  import opened PolicyEngine
  import opened Emission

  /** Where a call stands between two steps; `made` is the rank of its lease request. */
  datatype Phase =
    | Received(order: Order)
    | Checked(order: Order)
    | Claimed(order: Order, path: Bytes)
    | Finished(order: Order, made: nat, lease: Option<Bytes>)

  /** A lease request, and the life of the process in which it was made. */
  datatype Made = Made(request: LeaseRequest, life: nat) {
    function Hash(): Bytes { request.decision.decisionHash }
  }

  datatype State = State(life: nat, consumed: set<Bytes>, calls: map<nat, Phase>, requests: seq<Made>)

  datatype Action =
    | Receive(e: nat, order: Order)
    | CheckDecision(e: nat)
    | MarkConsumed(e: nat)
    | RequestLease(e: nat, answer: Option<Bytes>)
    | Abort(e: nat)
    | Restart

  const Initial: State := State(0, {}, map[], [])

  function Leave(s: State, e: nat): State {
    s.(calls := s.calls - {e})
  }

  /** The mark is set in the same step as it is tested; it is set before the verb is looked
      at, so that a decision can be used up without any request. */
  function MarkStep(s: State, e: nat, order: Order): State {
    if HashOf(order) in s.consumed then Leave(s, e)
    else
      var marked := s.(consumed := s.consumed + {HashOf(order)});
      match OpenBaoPath(order.verb, order.resourceId)
      case None => Leave(marked, e)
      case Some(path) => marked.(calls := s.calls[e := Claimed(order, path)])
  }

  function RequestStep(s: State, e: nat, order: Order, path: Bytes, answer: Option<Bytes>): State {
    if order.decision.None? then Leave(s, e)
    else
      var d := order.decision.value;
      s.(calls := s.calls[e := Finished(order, |s.requests|, answer)],
         requests := s.requests + [Made(LeaseRequest(path, LeaseTtl(d), d), s.life)])
  }

  /** One step of one call, given where it stands. */
  function CallStep(verify: Verifier, s: State, a: Action, e: nat, phase: Phase): State {
    match a
    case CheckDecision(_) =>
      if !phase.Received? then s
      else if Emittable(verify, phase.order) then s.(calls := s.calls[e := Checked(phase.order)])
      else Leave(s, e)
    case MarkConsumed(_) => if phase.Checked? then MarkStep(s, e, phase.order) else s
    case RequestLease(_, answer) => if phase.Claimed? then RequestStep(s, e, phase.order, phase.path, answer) else s
    case Abort(_) => Leave(s, e)
    case _ => s
  }

  /** A restart ends every call and forgets every mark; what was requested stays requested. */
  function Apply(verify: Verifier, s: State, a: Action): State {
    if a.Restart? then State(s.life + 1, {}, map[], s.requests)
    else if a.Receive? then (if a.e in s.calls then s else s.(calls := s.calls[a.e := Received(a.order)]))
    else if a.e in s.calls then CallStep(verify, s, a, a.e, s.calls[a.e])
    else s
  }

  function Run(verify: Verifier, s: State, actions: seq<Action>): State {
    if actions == [] then s
    else Apply(verify, Run(verify, s, actions[..|actions| - 1]), actions[|actions| - 1])
  }

  /** A call may end anywhere; what it marked stays marked. */
  lemma AbortExact(verify: Verifier, s: State, e: nat)
    ensures
      var t := Apply(verify, s, Abort(e));
      && e !in t.calls && t.consumed == s.consumed && t.requests == s.requests && t.life == s.life
      && forall f | f != e :: (f in t.calls <==> f in s.calls) && (f in s.calls ==> t.calls[f] == s.calls[f])
  {
  }

  // ----- the invariant ---------------------------------------------------------------------------

  /** Of two requests for one decision, the second was made in a later life. */
  predicate OncePerLife(requests: seq<Made>) {
    forall i, j | 0 <= i < j < |requests| && requests[i].Hash() == requests[j].Hash() ::
      requests[i].life < requests[j].life
  }

  predicate RequestFine(verify: Verifier, s: State, i: int) {
    0 <= i < |s.requests| ==>
      && Justified(verify, s.requests[i].request)
      && s.requests[i].life <= s.life
      && (s.requests[i].life == s.life ==> s.requests[i].Hash() in s.consumed)
  }

  predicate CallFine(verify: Verifier, s: State, e: nat) {
    e in s.calls ==>
      var phase := s.calls[e];
      && (!phase.Received? ==> Emittable(verify, phase.order))
      && (phase.Claimed? ==>
            HashOf(phase.order) in s.consumed && Some(phase.path) == OpenBaoPath(phase.order.verb, phase.order.resourceId))
      && (phase.Finished? ==>
            && phase.made < |s.requests|
            && phase.order.decision == Some(s.requests[phase.made].request.decision)
            && Some(s.requests[phase.made].request.path) == OpenBaoPath(phase.order.verb, phase.order.resourceId))
  }

  predicate Apart(calls: map<nat, Phase>, e: nat, f: nat) {
    e in calls && f in calls && e != f ==>
      && (calls[e].Claimed? && calls[f].Claimed? ==> HashOf(calls[e].order) != HashOf(calls[f].order))
      && (calls[e].Finished? && calls[f].Finished? ==> calls[e].made != calls[f].made)
  }

  /** A claimed decision has not been requested in this life. */
  predicate NotRequested(s: State, e: nat, i: int) {
    e in s.calls && s.calls[e].Claimed? && 0 <= i < |s.requests| && s.requests[i].life == s.life ==>
      HashOf(s.calls[e].order) != s.requests[i].Hash()
  }

  ghost predicate Sound(verify: Verifier, s: State) {
    && (forall e :: CallFine(verify, s, e))
    && (forall e, f :: Apart(s.calls, e, f))
    && (forall e, i :: NotRequested(s, e, i))
    && (forall i :: RequestFine(verify, s, i))
    && OncePerLife(s.requests)
  }

  /** A call that neither claims nor finishes disturbs no one. */
  lemma QuietStep(verify: Verifier, s: State, t: State, e: nat)
    requires Sound(verify, s)
    requires t.life == s.life && s.consumed <= t.consumed && t.requests == s.requests
    requires t.calls == s.calls - {e}
      || (e in t.calls && t.calls == s.calls[e := t.calls[e]] && (t.calls[e].Received? || t.calls[e].Checked?))
    requires CallFine(verify, t, e)
    ensures Sound(verify, t)
  {
    forall f ensures CallFine(verify, t, f) { assert CallFine(verify, s, f); }
    forall f, g ensures Apart(t.calls, f, g) { assert Apart(s.calls, f, g); }
    forall f, i ensures NotRequested(t, f, i) { assert NotRequested(s, f, i); }
    forall i ensures RequestFine(verify, t, i) { assert RequestFine(verify, s, i); }
  }

  lemma ClaimStep(verify: Verifier, s: State, e: nat, order: Order, path: Bytes)
    requires Sound(verify, s) && Emittable(verify, order) && HashOf(order) !in s.consumed
    requires OpenBaoPath(order.verb, order.resourceId) == Some(path)
    ensures Sound(verify, s.(consumed := s.consumed + {HashOf(order)}, calls := s.calls[e := Claimed(order, path)]))
  {
    var t := s.(consumed := s.consumed + {HashOf(order)}, calls := s.calls[e := Claimed(order, path)]);
    forall f ensures CallFine(verify, t, f) { assert CallFine(verify, s, f); }
    forall f, g ensures Apart(t.calls, f, g) {
      assert Apart(s.calls, f, g) && CallFine(verify, s, f) && CallFine(verify, s, g);
    }
    forall f, i ensures NotRequested(t, f, i) { assert NotRequested(s, f, i) && RequestFine(verify, s, i); }
    forall i ensures RequestFine(verify, t, i) { assert RequestFine(verify, s, i); }
  }

  lemma LeaseStep(verify: Verifier, s: State, e: nat, order: Order, path: Bytes, answer: Option<Bytes>)
    requires Sound(verify, s) && e in s.calls && s.calls[e] == Claimed(order, path)
    ensures Sound(verify, RequestStep(s, e, order, path, answer))
  {
    var t := RequestStep(s, e, order, path, answer);
    assert CallFine(verify, s, e);
    forall f ensures CallFine(verify, t, f) { assert CallFine(verify, s, f); }
    forall f, g ensures Apart(t.calls, f, g) {
      assert Apart(s.calls, f, g) && CallFine(verify, s, f) && CallFine(verify, s, g);
    }
    forall f, i ensures NotRequested(t, f, i) { assert NotRequested(s, f, i) && Apart(s.calls, e, f); }
    forall i ensures RequestFine(verify, t, i) { assert RequestFine(verify, s, i); }
    forall i, j | 0 <= i < j < |t.requests| && t.requests[i].Hash() == t.requests[j].Hash()
      ensures t.requests[i].life < t.requests[j].life
    {
      assert NotRequested(s, e, i) && RequestFine(verify, s, i);
    }
  }

  lemma SoundRestart(verify: Verifier, s: State)
    requires Sound(verify, s)
    ensures Sound(verify, Apply(verify, s, Restart))
  {
    var t := Apply(verify, s, Restart);
    forall i ensures RequestFine(verify, t, i) { assert RequestFine(verify, s, i); }
  }

  lemma SoundApply(verify: Verifier, s: State, a: Action)
    requires Sound(verify, s)
    ensures Sound(verify, Apply(verify, s, a))
  {
    var t := Apply(verify, s, a);
    if a.Restart? {
      SoundRestart(verify, s);
    } else if t != s {
      assert CallFine(verify, s, a.e);
      if a.RequestLease? {
        LeaseStep(verify, s, a.e, s.calls[a.e].order, s.calls[a.e].path, a.answer);
      } else if a.MarkConsumed? && a.e in t.calls {
        ClaimStep(verify, s, a.e, s.calls[a.e].order, t.calls[a.e].path);
      } else {
        QuietStep(verify, s, t, a.e);
      }
    }
  }

  lemma {:induction false} EveryRunIsSound(verify: Verifier, actions: seq<Action>)
    ensures Sound(verify, Run(verify, Initial, actions))
  {
    if actions != [] {
      EveryRunIsSound(verify, actions[..|actions| - 1]);
      SoundApply(verify, Run(verify, Initial, actions[..|actions| - 1]), actions[|actions| - 1]);
    }
  }

  // ----- what follows ------------------------------------------------------------------------------

  predicate NoRestart(actions: seq<Action>) {
    forall i | 0 <= i < |actions| :: !actions[i].Restart?
  }

  lemma {:induction false} LifeCounts(verify: Verifier, s: State, actions: seq<Action>)
    requires NoRestart(actions)
    ensures Run(verify, s, actions).life == s.life
  {
    if actions != [] { LifeCounts(verify, s, actions[..|actions| - 1]); }
  }

  /** Over every interleaving of emission calls and restarts, every lease request is for a
      verified ALLOW decision and with that decision's lifetime, and of two requests for one
      decision hash the second was made after a restart. Without a restart there is at most
      one. */
  lemma AtMostOneLeaseRequest(verify: Verifier, actions: seq<Action>)
    ensures
      var requests := Run(verify, Initial, actions).requests;
      && OncePerLife(requests)
      && (forall i | 0 <= i < |requests| :: Justified(verify, requests[i].request))
      && (NoRestart(actions) ==> forall i, j | 0 <= i < j < |requests| :: requests[i].Hash() != requests[j].Hash())
  {
    EveryRunIsSound(verify, actions);
    var s := Run(verify, Initial, actions);
    forall i | 0 <= i < |s.requests|
      ensures Justified(verify, s.requests[i].request) && s.requests[i].life <= s.life
    {
      assert RequestFine(verify, s, i);
    }
    if NoRestart(actions) { LifeCounts(verify, Initial, actions); }
  }

  function OneCall(order: Order, answer: Option<Bytes>): seq<Action> {
    [] + [Receive(0, order)] + [CheckDecision(0)] + [MarkConsumed(0)] + [RequestLease(0, answer)] + [Abort(0)]
  }

  lemma RunThen(verify: Verifier, s: State, front: seq<Action>, last: Action)
    ensures Run(verify, s, front + [last]) == Apply(verify, Run(verify, s, front), last)
  {
    assert (front + [last])[..|front|] == front;
  }

  lemma {:induction false} RunConcat(verify: Verifier, s: State, a: seq<Action>, b: seq<Action>)
    ensures Run(verify, s, a + b) == Run(verify, Run(verify, s, a), b)
  {
    if b == [] {
      assert a + b == a;
    } else {
      var n := |b| - 1;
      assert (a + b)[..|a| + n] == a + b[..n];
      RunConcat(verify, s, a, b[..n]);
    }
  }

  /** What an order needs to lead to a lease request, but for being the first. */
  predicate Acceptable(verify: Verifier, order: Order, d: DecisionResponse) {
    order.decision == Some(d) && verify(d) == Some(Valid) && d.effect == 1 && order.verb == "db.connect"
  }

  function Seconds(d: DecisionResponse): int {
    if d.maxTtl.None? then 0 else d.maxTtl.value.seconds
  }

  /** A call that nothing disturbs: for an acceptable order whose decision was not used in
      this life, it marks the decision and makes the one lease request that it stands for. */
  lemma OneCallRun(verify: Verifier, s: State, order: Order, answer: Option<Bytes>, d: DecisionResponse)
    requires s.calls == map[] && Acceptable(verify, order, d) && d.decisionHash !in s.consumed
    ensures Run(verify, s, OneCall(order, answer)) ==
      s.(consumed := s.consumed + {d.decisionHash},
         requests := s.requests + [Made(LeaseRequest("database/creds/" + order.resourceId, Seconds(d), d), s.life)])
  {
    var a0: seq<Action> := [];
    var a1 := a0 + [Receive(0, order)];
    var a2 := a1 + [CheckDecision(0)];
    var a3 := a2 + [MarkConsumed(0)];
    var a4 := a3 + [RequestLease(0, answer)];
    RunThen(verify, s, a0, Receive(0, order));
    RunThen(verify, s, a1, CheckDecision(0));
    RunThen(verify, s, a2, MarkConsumed(0));
    RunThen(verify, s, a3, RequestLease(0, answer));
    RunThen(verify, s, a4, Abort(0));
  }

  /** A restart does let a decision through again: every decision that can be emitted at all
      yields two lease requests when the process restarts between two calls. */
  lemma RestartForgets(verify: Verifier, order: Order, answer: Option<Bytes>, d: DecisionResponse)
    requires Acceptable(verify, order, d)
    ensures
      var requests := Run(verify, Initial, OneCall(order, answer) + [Restart] + OneCall(order, answer)).requests;
      |requests| == 2 && requests[0].Hash() == requests[1].Hash()
  {
    var call := OneCall(order, answer);
    OneCallRun(verify, Initial, order, answer, d);
    RunThen(verify, Initial, call, Restart);
    RunConcat(verify, Initial, call + [Restart], call);
    OneCallRun(verify, Run(verify, Initial, call + [Restart]), order, answer, d);
  }

  // ----- decisions used up without a request ---------------------------------------------------------

  /** The mark is set, no call holds it, and nothing was requested in this life. */
  ghost predicate UsedUp(s: State, hash: Bytes) {
    && hash in s.consumed
    && (forall e | e in s.calls && s.calls[e].Claimed? :: HashOf(s.calls[e].order) != hash)
    && (forall i | 0 <= i < |s.requests| && s.requests[i].life == s.life :: s.requests[i].Hash() != hash)
  }

  lemma UsedUpApply(verify: Verifier, s: State, a: Action, hash: Bytes)
    requires Sound(verify, s) && UsedUp(s, hash) && !a.Restart?
    ensures UsedUp(Apply(verify, s, a), hash)
  {
    if a.RequestLease? && a.e in s.calls && s.calls[a.e].Claimed? { assert CallFine(verify, s, a.e); }
  }

  /** A verb without an engine uses the decision up: until a restart, no run makes a lease
      request for it, with whatever verb it is presented again. */
  lemma {:induction false} UnknownVerbUsesUp(verify: Verifier, s: State, e: nat, future: seq<Action>)
    requires Sound(verify, s) && e in s.calls && s.calls[e].Checked? && HashOf(s.calls[e].order) !in s.consumed
    requires s.calls[e].order.verb != "db.connect" && NoRestart(future)
    ensures
      var t := Run(verify, Apply(verify, s, MarkConsumed(e)), future);
      Sound(verify, t) && UsedUp(t, HashOf(s.calls[e].order))
  {
    var hash := HashOf(s.calls[e].order);
    var marked := Apply(verify, s, MarkConsumed(e));
    if future == [] {
      SoundApply(verify, s, MarkConsumed(e));
      forall f | f in marked.calls && marked.calls[f].Claimed? ensures HashOf(marked.calls[f].order) != hash {
        assert CallFine(verify, s, f);
      }
      forall i | 0 <= i < |marked.requests| && marked.requests[i].life == marked.life
        ensures marked.requests[i].Hash() != hash
      {
        assert RequestFine(verify, s, i);
      }
    } else {
      var n := |future| - 1;
      UnknownVerbUsesUp(verify, s, e, future[..n]);
      var t := Run(verify, marked, future[..n]);
      SoundApply(verify, t, future[n]);
      UsedUpApply(verify, t, future[n], hash);
    }
  }
}
