/** The pool of device sessions under concurrent use. */
module Pool {
  import opened Basics
  import opened Der

  /** Sessions are told apart by number; a new one always gets a fresh number. */
  type Session = nat

  datatype Operation = SignDigest | PublicKey

  datatype HsmError =
    | SessionLost
    | NotLoggedIn
    | TokenAbsent
    | KeyNotFound
    | DeviceError
  {
    /** After these the session cannot be trusted any more. */
    predicate Uncertain() {
      SessionLost? || NotLoggedIn? || TokenAbsent?
    }
  }

  /** Where a caller stands between two steps. */
  datatype Phase =
    | Waiting(op: Operation)
    | Looking(op: Operation, session: Session)
    | Operating(op: Operation, session: Session)
    | Replacing

  datatype State = State(
    idle: seq<Session>,
    users: map<nat, Phase>,
    nextSession: nat,
    failedLookups: nat,
    failedReplacements: nat,
    exhausted: nat)
  {
    /** Sessions that no one can ever use again, counted by their causes. */
    function Lost(): nat { failedLookups + failedReplacements }
  }

  datatype Action =
    | Attempt(u: nat, op: Operation, timedOut: bool, expired: bool)
    | Lookup(u: nat, error: Option<HsmError>)
    | Operate(u: nat, error: Option<HsmError>)
    | Replenish(u: nat, ok: bool)

  function Initial(size: nat): State {
    State(seq(size, i requires 0 <= i < size => i), map[], size, 0, 0, 0)
  }

  function Leave(s: State, u: nat): State {
    s.(users := s.users - {u})
  }

  function Release(s: State, u: nat, session: Session): State {
    Leave(s, u).(idle := s.idle + [session])
  }

  /** One pass of the acquisition loop under the lock: the timed-out check is the one made
      right after waking up. */
  function AttemptStep(s: State, u: nat, op: Operation, timedOut: bool, expired: bool): State {
    if timedOut && s.idle == [] then Leave(s, u).(exhausted := s.exhausted + 1)
    else if s.idle != [] then s.(idle := s.idle[1..], users := s.users[u := Looking(op, s.idle[0])])
    else if expired then Leave(s, u).(exhausted := s.exhausted + 1)
    else s.(users := s.users[u := Waiting(op)])
  }

  /** One step. A step that does not fit the caller's phase changes nothing. */
  function Apply(s: State, a: Action): State {
    match a
    case Attempt(u, op, timedOut, expired) =>
      if u !in s.users then AttemptStep(s, u, op, false, expired)
      else if s.users[u].Waiting? then AttemptStep(s, u, s.users[u].op, timedOut, expired)
      else s
    case Lookup(u, error) =>
      if u !in s.users || !s.users[u].Looking? then s
      else if error.None? then s.(users := s.users[u := Operating(s.users[u].op, s.users[u].session)])
      else if s.users[u].op.PublicKey? then Release(s, u, s.users[u].session)
      else Leave(s, u).(failedLookups := s.failedLookups + 1)
    case Operate(u, error) =>
      if u !in s.users || !s.users[u].Operating? then s
      else if error.Some? && error.value.Uncertain() then s.(users := s.users[u := Replacing])
      else Release(s, u, s.users[u].session)
    case Replenish(u, ok) =>
      if u !in s.users || !s.users[u].Replacing? then s
      else if ok then Release(s, u, s.nextSession).(nextSession := s.nextSession + 1)
      else Leave(s, u).(failedReplacements := s.failedReplacements + 1)
  }

  function Run(s: State, actions: seq<Action>): State {
    if actions == [] then s
    else Apply(Run(s, actions[..|actions| - 1]), actions[|actions| - 1])
  }

  // ----- accounting ------------------------------------------------------------------------

  predicate Holds(p: Phase) {
    p.Looking? || p.Operating?
  }

  function Holders(users: map<nat, Phase>): set<nat> {
    set u | u in users && Holds(users[u])
  }

  function Replacers(users: map<nat, Phase>): set<nat> {
    set u | u in users && users[u].Replacing?
  }

  predicate Balanced(s: State, size: nat) {
    |s.idle| + |Holders(s.users)| + |Replacers(s.users)| + s.Lost() == size
  }

  predicate QueueFine(idle: seq<Session>, next: nat) {
    && (forall i | 0 <= i < |idle| :: idle[i] < next)
    && (forall i, j | 0 <= i < j < |idle| :: idle[i] != idle[j])
  }

  predicate HeldFine(users: map<nat, Phase>, idle: seq<Session>, next: nat, u: nat) {
    u in users && Holds(users[u]) ==> users[u].session < next && users[u].session !in idle
  }

  predicate Apart(users: map<nat, Phase>, u: nat, v: nat) {
    u in users && v in users && u != v && Holds(users[u]) && Holds(users[v]) ==> users[u].session != users[v].session
  }

  /** No session is in two places: two callers, twice in the queue, or both. */
  ghost predicate Exclusive(users: map<nat, Phase>, idle: seq<Session>, next: nat) {
    && QueueFine(idle, next)
    && (forall u :: HeldFine(users, idle, next, u))
    && (forall u, v :: Apart(users, u, v))
  }

  predicate NotHolding(users: map<nat, Phase>, x: Session, u: nat) {
    u in users && Holds(users[u]) ==> users[u].session != x
  }

  function One(b: bool): int { if b then 1 else 0 }

  predicate IsHolder(users: map<nat, Phase>, u: nat) { u in users && Holds(users[u]) }

  predicate IsReplacer(users: map<nat, Phase>, u: nat) { u in users && users[u].Replacing? }

  /** How a caller's leaving moves the two counts. */
  lemma CountsWithout(users: map<nat, Phase>, u: nat)
    ensures |Holders(users - {u})| == |Holders(users)| - One(IsHolder(users, u))
    ensures |Replacers(users - {u})| == |Replacers(users)| - One(IsReplacer(users, u))
  {
    assert Holders(users - {u}) == Holders(users) - {u};
    assert Replacers(users - {u}) == Replacers(users) - {u};
  }

  /** How a caller's change of phase moves the two counts. */
  lemma CountsWith(users: map<nat, Phase>, u: nat, p: Phase)
    ensures |Holders(users[u := p])| == |Holders(users)| - One(IsHolder(users, u)) + One(Holds(p))
    ensures |Replacers(users[u := p])| == |Replacers(users)| - One(IsReplacer(users, u)) + One(p.Replacing?)
  {
    CountsWithout(users[u := p], u);
    CountsWithout(users, u);
    assert users[u := p] - {u} == users - {u};
  }

  // ----- exclusivity, change by change -----------------------------------------------------

  lemma LeaveExclusive(users: map<nat, Phase>, idle: seq<Session>, next: nat, u: nat)
    requires Exclusive(users, idle, next)
    ensures Exclusive(users - {u}, idle, next)
  {
    var after := users - {u};
    forall v
      ensures HeldFine(after, idle, next, v)
    {
      assert HeldFine(users, idle, next, v);
    }
    forall v, w
      ensures Apart(after, v, w)
    {
      assert Apart(users, v, w);
    }
  }

  /** A caller may enter a phase with a session that is nobody else's and not in the queue. */
  lemma EnterExclusive(users: map<nat, Phase>, idle: seq<Session>, next: nat, u: nat, p: Phase)
    requires Exclusive(users, idle, next) && u !in users
    requires Holds(p) ==> p.session < next && p.session !in idle && forall v :: NotHolding(users, p.session, v)
    ensures Exclusive(users[u := p], idle, next)
  {
    var after := users[u := p];
    forall v
      ensures HeldFine(after, idle, next, v)
    {
      assert HeldFine(users, idle, next, v);
    }
    forall v, w
      ensures Apart(after, v, w)
    {
      assert Apart(users, v, w);
      if Holds(p) { assert NotHolding(users, p.session, v) && NotHolding(users, p.session, w); }
    }
  }

  lemma PushExclusive(users: map<nat, Phase>, idle: seq<Session>, next: nat, x: Session)
    requires Exclusive(users, idle, next) && x < next && x !in idle
    requires forall v :: NotHolding(users, x, v)
    ensures Exclusive(users, idle + [x], next)
  {
    forall v
      ensures HeldFine(users, idle + [x], next, v)
    {
      assert HeldFine(users, idle, next, v) && NotHolding(users, x, v);
    }
  }

  lemma PopExclusive(users: map<nat, Phase>, idle: seq<Session>, next: nat)
    requires Exclusive(users, idle, next) && idle != []
    ensures Exclusive(users, idle[1..], next)
    ensures idle[0] < next && idle[0] !in idle[1..] && forall v :: NotHolding(users, idle[0], v)
  {
    forall v
      ensures HeldFine(users, idle[1..], next, v) && NotHolding(users, idle[0], v)
    {
      assert HeldFine(users, idle, next, v);
    }
  }

  lemma FreshExclusive(users: map<nat, Phase>, idle: seq<Session>, next: nat, later: nat)
    requires Exclusive(users, idle, next) && next < later
    ensures Exclusive(users, idle, later) && next !in idle && forall v :: NotHolding(users, next, v)
  {
    assert forall x | x in idle :: x < next;
    forall v
      ensures HeldFine(users, idle, later, v) && NotHolding(users, next, v)
    {
      assert HeldFine(users, idle, next, v);
    }
  }

  /** Once a caller has left, what it held is free. */
  lemma FreedByLeaving(users: map<nat, Phase>, idle: seq<Session>, next: nat, u: nat)
    requires Exclusive(users, idle, next) && u in users && Holds(users[u])
    ensures users[u].session < next && users[u].session !in idle
    ensures forall v :: NotHolding(users - {u}, users[u].session, v)
  {
    assert HeldFine(users, idle, next, u);
    forall v
      ensures NotHolding(users - {u}, users[u].session, v)
    {
      assert Apart(users, u, v);
    }
  }

  lemma ExclusiveApply(s: State, a: Action)
    requires Exclusive(s.users, s.idle, s.nextSession)
    ensures Exclusive(Apply(s, a).users, Apply(s, a).idle, Apply(s, a).nextSession)
  {
    var u, users, idle, next := a.u, s.users, s.idle, s.nextSession;
    LeaveExclusive(users, idle, next, u);
    var others := users - {u};
    if u in users && Holds(users[u]) {
      var x := users[u].session;
      FreedByLeaving(users, idle, next, u);
      PushExclusive(others, idle, next, x);
      EnterExclusive(others, idle, next, u, Operating(users[u].op, x));
      EnterExclusive(others, idle, next, u, Replacing);
      assert others[u := Operating(users[u].op, x)] == users[u := Operating(users[u].op, x)];
      assert others[u := Replacing] == users[u := Replacing];
    } else if u in users && users[u].Replacing? {
      FreshExclusive(others, idle, next, next + 1);
      PushExclusive(others, idle, next + 1, next);
    } else if a.Attempt? {
      var op := if u in users then users[u].op else a.op;
      EnterExclusive(others, idle, next, u, Waiting(op));
      assert others[u := Waiting(op)] == users[u := Waiting(op)];
      if idle != [] {
        PopExclusive(others, idle, next);
        EnterExclusive(others, idle[1..], next, u, Looking(op, idle[0]));
        assert others[u := Looking(op, idle[0])] == users[u := Looking(op, idle[0])];
      }
    }
  }

  // ----- every run ---------------------------------------------------------------------------

  ghost predicate Sound(s: State, size: nat) {
    Balanced(s, size) && Exclusive(s.users, s.idle, s.nextSession)
  }

  lemma BalancedApply(s: State, a: Action, size: nat)
    requires Balanced(s, size)
    ensures Balanced(Apply(s, a), size)
  {
    var t, u := Apply(s, a), a.u;
    CountsWithout(s.users, u);
    if u in t.users { CountsWith(s.users, u, t.users[u]); }
  }

  lemma InitialHolds(size: nat)
    ensures Sound(Initial(size), size)
  {
  }

  /** Over every run of any number of concurrent callers, each of the `size` sessions is
      idle, held by one caller, being replaced or lost, and no session is ever shared. */
  lemma {:induction false} EveryRunIsSound(size: nat, actions: seq<Action>)
    ensures Sound(Run(Initial(size), actions), size)
  {
    if actions == [] {
      InitialHolds(size);
    } else {
      var front := actions[..|actions| - 1];
      EveryRunIsSound(size, front);
      BalancedApply(Run(Initial(size), front), actions[|actions| - 1], size);
      ExclusiveApply(Run(Initial(size), front), actions[|actions| - 1]);
    }
  }

  predicate LookupFails(s: State, a: Action) {
    a.Lookup? && a.error.Some? && a.u in s.users && s.users[a.u].Looking? && s.users[a.u].op.SignDigest?
  }

  predicate ReplacementFails(s: State, a: Action) {
    a.Replenish? && !a.ok && a.u in s.users && s.users[a.u].Replacing?
  }

  /** A caller that finds nothing and has no time left, on arrival or after a wait. */
  predicate GivesUp(s: State, a: Action) {
    && a.Attempt? && s.idle == []
    && if a.u in s.users then s.users[a.u].Waiting? && (a.timedOut || a.expired) else a.expired
  }

  /** Exactly when capacity shrinks, and by which cause, and exactly when a caller is turned
      away. */
  lemma StepCauses(s: State, a: Action)
    ensures
      var after := Apply(s, a);
      && after.failedLookups == s.failedLookups + (if LookupFails(s, a) then 1 else 0)
      && after.failedReplacements == s.failedReplacements + (if ReplacementFails(s, a) then 1 else 0)
      && after.exhausted == s.exhausted + (if GivesUp(s, a) then 1 else 0)
  {
  }

  /** A caller in front of a queue that is not empty is served at once, with the session that
      has waited longest, whatever its clock says. */
  lemma AttemptServes(s: State, u: nat, op: Operation, timedOut: bool, expired: bool)
    requires s.idle != [] && (u !in s.users || s.users[u] == Waiting(op))
    ensures
      var t := Apply(s, Attempt(u, op, timedOut, expired));
      && u in t.users && t.users[u] == Looking(op, s.idle[0]) && t.idle == s.idle[1..]
      && (forall v | v != u :: (v in t.users <==> v in s.users) && (v in s.users ==> t.users[v] == s.users[v]))
  {
  }

  /** In front of an empty queue it waits, until its time is over: nothing else changes. */
  lemma AttemptWaits(s: State, u: nat, op: Operation, timedOut: bool, expired: bool)
    requires s.idle == [] && (u !in s.users || s.users[u] == Waiting(op))
    ensures
      var a := Attempt(u, op, timedOut, expired);
      var t := Apply(s, a);
      && t.idle == [] && t.nextSession == s.nextSession && t.Lost() == s.Lost()
      && (u in t.users <==> !GivesUp(s, a))
      && (u in t.users ==> t.users[u] == Waiting(op))
      && (forall v | v != u :: (v in t.users <==> v in s.users) && (v in s.users ==> t.users[v] == s.users[v]))
  {
  }

  // ----- consequences ----------------------------------------------------------------------

  /** When every caller has left, the pool is full again but for what was lost. */
  lemma QuietPool(size: nat, actions: seq<Action>)
    requires Run(Initial(size), actions).users == map[]
    ensures |Run(Initial(size), actions).idle| == size - Run(Initial(size), actions).Lost()
  {
    EveryRunIsSound(size, actions);
    assert Holders(map[]) == {} && Replacers(map[]) == {};
  }

  lemma {:induction false} LossIsFinal(s: State, actions: seq<Action>)
    ensures s.Lost() <= Run(s, actions).Lost()
  {
    if actions != [] {
      var front := actions[..|actions| - 1];
      LossIsFinal(s, front);
      StepCauses(Run(s, front), actions[|actions| - 1]);
    }
  }

  lemma {:induction false} RunConcat(s: State, a: seq<Action>, b: seq<Action>)
    ensures Run(s, a + b) == Run(Run(s, a), b)
  {
    if b == [] {
      assert a + b == a;
    } else {
      var n := |b| - 1;
      assert (a + b)[..|a| + n] == a + b[..n];
      RunConcat(s, a, b[..n]);
    }
  }

  /** A pool that has lost all its sessions never serves anyone again. */
  lemma DeadForever(size: nat, past: seq<Action>, future: seq<Action>)
    requires Run(Initial(size), past).Lost() == size
    ensures Run(Initial(size), past + future).idle == []
  {
    RunConcat(Initial(size), past, future);
    LossIsFinal(Run(Initial(size), past), future);
    EveryRunIsSound(size, past + future);
  }

  /** One signing call whose key is not found. */
  const MissingKeyCall: seq<Action> := [Attempt(0, SignDigest, false, true), Lookup(0, Some(KeyNotFound))]

  lemma CallWithoutKey(s: State)
    requires 0 !in s.users && s.idle != []
    ensures Run(s, MissingKeyCall) == s.(idle := s.idle[1..], failedLookups := s.failedLookups + 1)
  {
    var a := MissingKeyCall;
    assert a[..1][..0] == [] && a[..1] == [a[0]];
    var held := Apply(s, a[0]);
    assert Run(s, a[..1]) == held;
    assert held.users - {0} == s.users;
  }

  function Calls(n: nat): seq<Action> {
    if n == 0 then [] else Calls(n - 1) + MissingKeyCall
  }

  lemma {:induction false} CallsDrain(size: nat, n: nat)
    requires n <= size
    ensures
      var s := Run(Initial(size), Calls(n));
      s.users == map[] && |s.idle| == size - n && s.Lost() == n
  {
    if n > 0 {
      CallsDrain(size, n - 1);
      RunConcat(Initial(size), Calls(n - 1), MissingKeyCall);
      CallWithoutKey(Run(Initial(size), Calls(n - 1)));
    }
  }

  /** A pool of any size is drained for good by as many signing calls for a key that is not
      there, since such a call drops its session without opening another. */
  lemma MissingKeyDrainsPool(size: nat, future: seq<Action>)
    ensures Run(Initial(size), Calls(size) + future).idle == []
  {
    CallsDrain(size, size);
    DeadForever(size, Calls(size), future);
  }

  // ----- the acquisition loop ----------------------------------------------------------------

  /** What a waiting caller finds when it wakes up: the queue as the others left it, and
      whether the wait timed out. */
  datatype Wake = Wake(idle: seq<Session>, timedOut: bool)

  /** The first `k` waits ended in front of an empty queue, none of them by a timeout. */
  predicate InVain(wakes: seq<Wake>, k: nat)
    requires k <= |wakes|
  {
    forall j | 0 <= j < k :: wakes[j].idle == [] && !wakes[j].timedOut
  }

  /** The loop itself. `wakes` are the waits that the deadline leaves room for. It takes the
      front session of the first queue that it finds not empty, and gives up only in front of
      an empty one: after a timeout, or when no time is left for another wait. */
  method Acquire(idle: seq<Session>, wakes: seq<Wake>) returns (r: Option<Session>, left: seq<Session>)
    ensures idle != [] ==> r.Some? && idle == [r.value] + left
    ensures idle == [] && r.Some? ==>
      exists k | 0 <= k < |wakes| :: InVain(wakes, k) && wakes[k].idle == [r.value] + left
    ensures r.None? ==> idle == [] && left == []
    ensures r.None? ==>
      || InVain(wakes, |wakes|)
      || exists k | 0 <= k < |wakes| :: InVain(wakes, k) && wakes[k].idle == [] && wakes[k].timedOut
  {
    var seen := idle;
    var k := 0;
    while true
      invariant 0 <= k <= |wakes|
      invariant k == 0 ==> seen == idle
      invariant k > 0 ==> idle == [] && InVain(wakes, k - 1) && seen == wakes[k - 1].idle
      invariant k > 0 && seen == [] ==> InVain(wakes, k)
      decreases |wakes| - k
    {
      if seen != [] {
        r, left := Some(seen[0]), seen[1..];
        return;
      }
      if k == |wakes| { return None, []; }
      seen := wakes[k].idle;
      k := k + 1;
      if wakes[k - 1].timedOut && seen == [] { return None, []; }
    }
  }

  // ----- the pool object ---------------------------------------------------------------------

  datatype Outcome = Done | Failed(error: HsmError) | PoolExhausted

  /** The steps of one call that no other caller disturbs; those that do not apply are
      without effect. */
  function CallActions(op: Operation, lookup: Option<HsmError>, operation: Option<HsmError>, reopens: bool): seq<Action> {
    [Attempt(0, op, false, true), Lookup(0, lookup), Operate(0, operation), Replenish(0, reopens)]
  }

  function AfterCall(idle: seq<Session>, next: nat, op: Operation, lookup: Option<HsmError>,
                     operation: Option<HsmError>, reopens: bool): State {
    Run(State(idle, map[], next, 0, 0, 0), CallActions(op, lookup, operation, reopens))
  }

  lemma FourSteps(s: State, a: seq<Action>)
    requires |a| == 4
    ensures Run(s, a) == Apply(Apply(Apply(Apply(s, a[0]), a[1]), a[2]), a[3])
  {
    RunThen(s, [], a[0]);
    RunThen(s, [a[0]], a[1]);
    RunThen(s, [a[0], a[1]], a[2]);
    RunThen(s, [a[0], a[1], a[2]], a[3]);
    assert [] + [a[0]] == [a[0]] && [a[0]] + [a[1]] == [a[0], a[1]];
    assert [a[0], a[1]] + [a[2]] == [a[0], a[1], a[2]] && [a[0], a[1], a[2]] + [a[3]] == a;
  }

  lemma RunThen(s: State, front: seq<Action>, last: Action)
    ensures Run(s, front + [last]) == Apply(Run(s, front), last)
  {
  }

  class SessionPool {
    var idle: seq<Session>
    var nextSession: nat

    constructor (size: nat)
      ensures idle == Initial(size).idle && nextSession == size
    {
      idle := seq(size, i requires 0 <= i < size => i);
      nextSession := size;
    }

    method Release(session: Session)
      modifies this
      ensures idle == old(idle) + [session] && nextSession == old(nextSession)
    {
      idle := idle + [session];
    }

    /** Opens a session in place of one that was dropped, if the device lets it. */
    method EvictAndReplenish(reopens: bool)
      modifies this
      ensures idle == if reopens then old(idle) + [old(nextSession)] else old(idle)
      ensures nextSession == old(nextSession) + (if reopens then 1 else 0)
    {
      if reopens {
        var session := nextSession;
        nextSession := nextSession + 1;
        Release(session);
      }
    }

    method HandleOperationFailure(session: Session, error: HsmError, reopens: bool)
      modifies this
      ensures error !in {SessionLost, NotLoggedIn, TokenAbsent} ==>
        idle == old(idle) + [session] && nextSession == old(nextSession)
      ensures error in {SessionLost, NotLoggedIn, TokenAbsent} ==>
        && idle == (if reopens then old(idle) + [old(nextSession)] else old(idle))
        && nextSession == old(nextSession) + (if reopens then 1 else 0)
    {
      if error.Uncertain() { EvictAndReplenish(reopens); } else { Release(session); }
    }

    /** A call is its four steps in a row. It costs the pool a session exactly when the key
        is not found or when a replacement is due and cannot be opened. */
    method SignDigest(lookup: Option<HsmError>, operation: Option<HsmError>, reopens: bool) returns (r: Outcome)
      modifies this
      ensures
        var s := AfterCall(old(idle), old(nextSession), Operation.SignDigest, lookup, operation, reopens);
        idle == s.idle && nextSession == s.nextSession && s.users == map[]
      ensures r.PoolExhausted? <==> old(idle) == []
      ensures r.Done? <==> old(idle) != [] && lookup.None? && operation.None?
      ensures old(idle) != [] && !r.Done? ==> r == Failed(if lookup.Some? then lookup.value else operation.value)
      ensures old(idle) != [] ==>
        var fatal := operation.Some? && operation.value in {SessionLost, NotLoggedIn, TokenAbsent};
        var dropped := lookup.Some? || (fatal && !reopens);
        |idle| == |old(idle)| - One(dropped)
    {
      FourSteps(State(idle, map[], nextSession, 0, 0, 0), CallActions(Operation.SignDigest, lookup, operation, reopens));
      if idle == [] { return PoolExhausted; }
      var session := idle[0];
      idle := idle[1..];
      if lookup.Some? { return Failed(lookup.value); }
      if operation.None? {
        Release(session);
        r := Done;
      } else {
        HandleOperationFailure(session, operation.value, reopens);
        r := Failed(operation.value);
      }
    }

    /** Reading a public key gives its session back when the key is not found. `read` is the
        device's answer: the attribute, if it is there, or an error. The call succeeds
        exactly when the answer holds an attribute that decodes, and returns its content. */
    method ReadPublicKey(lookup: Option<HsmError>, read: Result<Option<Octets>, HsmError>, reopens: bool)
      returns (r: Result<Bytes, Outcome>)
      modifies this
      ensures
        var operation := if read.Err? then Some(read.error) else None;
        var s := AfterCall(old(idle), old(nextSession), Operation.PublicKey, lookup, operation, reopens);
        idle == s.idle && nextSession == s.nextSession && s.users == map[]
      ensures r == Err(PoolExhausted) <==> old(idle) == []
      ensures forall point :: r == Ok(point) <==>
        old(idle) != [] && lookup.None? && read.Ok? && read.value.Some? && Encodes(read.value.value, point)
      ensures old(idle) != [] && r.Err? ==>
        r.error == Failed(if lookup.Some? then lookup.value else if read.Err? then read.error
                          else if read.value.None? then KeyNotFound else DeviceError)
      ensures old(idle) != [] ==>
        var fatal := read.Err? && read.error in {SessionLost, NotLoggedIn, TokenAbsent};
        var dropped := lookup.None? && fatal && !reopens;
        |idle| == |old(idle)| - One(dropped)
    {
      ghost var operation := if read.Err? then Some(read.error) else None;
      FourSteps(State(idle, map[], nextSession, 0, 0, 0), CallActions(Operation.PublicKey, lookup, operation, reopens));
      if idle == [] { return Err(PoolExhausted); }
      var session := idle[0];
      idle := idle[1..];
      if lookup.Some? {
        Release(session);
        return Err(Failed(lookup.value));
      }
      if read.Err? {
        HandleOperationFailure(session, read.error, reopens);
        return Err(Failed(read.error));
      }
      Release(session);
      if read.value.None? { return Err(Failed(KeyNotFound)); }
      var point := DecodeEcPoint(read.value.value);
      if point.None? { return Err(Failed(DeviceError)); }
      r := Ok(point.value);
    }
  }
}
