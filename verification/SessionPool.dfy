/** The PKCS#11 session pool as a concurrent protocol.

    A semaphore counter and a mutex-guarded deque are two separate shared
    objects. One `acquire` call, together with the guard it hands out, goes
    through four atomic sections: take a permit, pop a session, push the session
    back when the guard is dropped, release the permit. Sections of different
    calls interleave freely, and one thread may have several calls alive. */
module SessionPool {
  import opened Bytes

  datatype Session = Session(handle: nat)

  type CallId = nat

  /** Where a live call stands between two of its atomic sections. */
  datatype Phase =
    | Permitted               // has a permit, has not popped yet
    | Failing                 // popped an empty deque, still has its permit
    | Holding(session: Session)
    | Returned                // session pushed back, permit not yet released

  datatype Pool = Pool(sessions: seq<Session>, permits: nat, calls: map<CallId, Phase>)

  datatype Event =
    | TryAcquire(call: CallId)
    | PopFront(call: CallId)
    | PushBack(call: CallId)
    | ReleasePermit(call: CallId)

  /** What the caller of `acquire` is told by an atomic section, if anything. */
  datatype Report = Silent | Exhausted | Granted(session: Session)

  predicate Enabled(p: Pool, e: Event) {
    match e
    case TryAcquire(c) => c !in p.calls
    case PopFront(c) => c in p.calls && p.calls[c].Permitted?
    case PushBack(c) => c in p.calls && p.calls[c].Holding?
    case ReleasePermit(c) => c in p.calls && (p.calls[c].Returned? || p.calls[c].Failing?)
  }

  /** One atomic section. An event that is not enabled cannot happen; it is
      given the identity so that every event sequence denotes a run. */
  function Step(p: Pool, e: Event): Pool {
    if !Enabled(p, e) then p else
      match e
      case TryAcquire(c) =>
        if p.permits == 0 then p else p.(permits := p.permits - 1, calls := p.calls[c := Permitted])
      case PopFront(c) =>
        if p.sessions == [] then p.(calls := p.calls[c := Failing])
        else p.(sessions := p.sessions[1..], calls := p.calls[c := Holding(p.sessions[0])])
      case PushBack(c) =>
        p.(sessions := p.sessions + [p.calls[c].session], calls := p.calls[c := Returned])
      case ReleasePermit(c) =>
        p.(permits := p.permits + 1, calls := p.calls - {c})
  }

  function ReportOf(p: Pool, e: Event): Report {
    if !Enabled(p, e) then Silent else
      match e
      case TryAcquire(_) => if p.permits == 0 then Exhausted else Silent
      case PopFront(_) => if p.sessions == [] then Exhausted else Granted(p.sessions[0])
      case PushBack(_) => Silent
      case ReleasePermit(_) => Silent
  }

  function Initial(stock: seq<Session>): Pool {
    Pool(stock, |stock|, map[])
  }

  /** The pool after a run of atomic sections, in the order they take effect. */
  function After(stock: seq<Session>, events: seq<Event>): Pool {
    if events == [] then Initial(stock)
    else Step(After(stock, events[..|events| - 1]), events[|events| - 1])
  }

  // ── Permits against sessions ──────────────────────────────────────────────

  ghost function Waiting(p: Pool): set<CallId> {
    set c | c in p.calls && p.calls[c].Permitted?
  }

  ghost function Handing(p: Pool): set<CallId> {
    set c | c in p.calls && p.calls[c].Returned?
  }

  ghost function Holders(p: Pool): set<CallId> {
    set c | c in p.calls && p.calls[c].Holding?
  }

  ghost predicate Balanced(p: Pool, capacity: nat) {
    && p.permits + |p.calls| == capacity
    && |p.sessions| == p.permits + |Waiting(p)| + |Handing(p)|
    && (forall c :: c in p.calls ==> !p.calls[c].Failing?)
  }

  lemma PermitTakenKeepsBalance(p: Pool, c: CallId, capacity: nat)
    requires Balanced(p, capacity) && c !in p.calls && p.permits > 0
    ensures Balanced(Step(p, TryAcquire(c)), capacity)
  {
    var q := Step(p, TryAcquire(c));
    assert q.calls.Keys == p.calls.Keys + {c};
    assert Waiting(q) == Waiting(p) + {c};
    assert Handing(q) == Handing(p);
  }

  lemma PopKeepsBalance(p: Pool, c: CallId, capacity: nat)
    requires Balanced(p, capacity) && Enabled(p, PopFront(c))
    ensures p.sessions != []
    ensures Balanced(Step(p, PopFront(c)), capacity)
  {
    assert c in Waiting(p);
    var q := Step(p, PopFront(c));
    assert q.calls.Keys == p.calls.Keys;
    assert Waiting(q) == Waiting(p) - {c};
    assert Handing(q) == Handing(p);
  }

  lemma PushKeepsBalance(p: Pool, c: CallId, capacity: nat)
    requires Balanced(p, capacity) && Enabled(p, PushBack(c))
    ensures Balanced(Step(p, PushBack(c)), capacity)
  {
    var q := Step(p, PushBack(c));
    assert q.calls.Keys == p.calls.Keys;
    assert Waiting(q) == Waiting(p);
    assert Handing(q) == Handing(p) + {c};
  }

  lemma ReleaseKeepsBalance(p: Pool, c: CallId, capacity: nat)
    requires Balanced(p, capacity) && Enabled(p, ReleasePermit(c))
    ensures Balanced(Step(p, ReleasePermit(c)), capacity)
  {
    var q := Step(p, ReleasePermit(c));
    assert q.calls.Keys == p.calls.Keys - {c};
    assert Waiting(q) == Waiting(p);
    assert c in Handing(p) && Handing(q) == Handing(p) - {c};
  }

  lemma StepKeepsBalance(p: Pool, e: Event, capacity: nat)
    requires Balanced(p, capacity)
    ensures Balanced(Step(p, e), capacity)
    ensures e.PopFront? && Enabled(p, e) ==> p.sessions != []
  {
    if Enabled(p, e) {
      match e {
        case TryAcquire(c) => if p.permits > 0 { PermitTakenKeepsBalance(p, c, capacity); }
        case PopFront(c) => PopKeepsBalance(p, c, capacity);
        case PushBack(c) => PushKeepsBalance(p, c, capacity);
        case ReleasePermit(c) => ReleaseKeepsBalance(p, c, capacity);
      }
    }
  }

  /** In every interleaving the deque length is the free permits plus the calls
      that still have to pop plus the calls that already pushed back. */
  lemma {:induction false} RunsStayBalanced(stock: seq<Session>, events: seq<Event>)
    ensures Balanced(After(stock, events), |stock|)
  {
    if events == [] {
      var p := Initial(stock);
      assert Waiting(p) == {} && Handing(p) == {};
    } else {
      RunsStayBalanced(stock, events[..|events| - 1]);
      StepKeepsBalance(After(stock, events[..|events| - 1]), events[|events| - 1], |stock|);
    }
  }

  /** A granted permit always finds a session, so `acquire` reports exhaustion
      exactly when it asks for a permit while `capacity` calls are alive. The
      deque then holds one session per call between two sections, so it is empty
      exactly when every live call holds its session. */
  lemma ExhaustedExactlyWhenAllPermitsAreOut(stock: seq<Session>, events: seq<Event>, e: Event)
    requires Enabled(After(stock, events), e)
    ensures var p := After(stock, events);
      && (ReportOf(p, e) == Exhausted <==> e.TryAcquire? && |p.calls| == |stock|)
      && (e.PopFront? ==> ReportOf(p, e).Granted?)
      && (ReportOf(p, e) == Exhausted ==> |p.sessions| == |Waiting(p)| + |Handing(p)|)
      && (ReportOf(p, e) == Exhausted ==>
            (p.sessions == [] <==> forall c :: c in p.calls ==> p.calls[c].Holding?))
  {
    RunsStayBalanced(stock, events);
    StepKeepsBalance(After(stock, events), e, |stock|);
    EmptyExactlyWhenAllHold(After(stock, events));
  }

  lemma EmptyExactlyWhenAllHold(p: Pool)
    requires forall c :: c in p.calls ==> !p.calls[c].Failing?
    ensures |Waiting(p)| + |Handing(p)| == 0 <==> forall c :: c in p.calls ==> p.calls[c].Holding?
  {
    if c :| c in p.calls && !p.calls[c].Holding? {
      assert c in Waiting(p) || c in Handing(p);
    } else {
      assert Waiting(p) == {} && Handing(p) == {};
    }
  }

  /** The first `k` calls acquire, one after the other. */
  function AcquireAll(k: nat): seq<Event> {
    if k == 0 then [] else AcquireAll(k - 1) + [TryAcquire(k - 1)] + [PopFront(k - 1)]
  }

  function Lending(stock: seq<Session>, k: nat): Pool
    requires k <= |stock|
  {
    Pool(stock[k..], |stock| - k, map c: CallId | 0 <= c < k :: Holding(stock[c]))
  }

  lemma AfterOneMore(stock: seq<Session>, events: seq<Event>, e: Event)
    ensures After(stock, events + [e]) == Step(After(stock, events), e)
  {
    assert (events + [e])[..|events|] == events;
  }

  lemma LendOneMore(stock: seq<Session>, k: nat)
    requires k < |stock|
    ensures Step(Step(Lending(stock, k), TryAcquire(k)), PopFront(k)) == Lending(stock, k + 1)
  {
    var p, q := Lending(stock, k), Lending(stock, k + 1);
    assert stock[k..][1..] == stock[k + 1..];
    assert p.calls[k := Permitted][k := Holding(stock[k])] == q.calls;
  }

  lemma {:induction false} AfterAcquireAll(stock: seq<Session>, k: nat)
    requires k <= |stock|
    ensures After(stock, AcquireAll(k)) == Lending(stock, k)
  {
    if k == 0 {
      assert stock[0..] == stock;
    } else {
      hide Step, Lending;
      LendOneMore(stock, k - 1);
      AfterAcquireAll(stock, k - 1);
      AfterOneMore(stock, AcquireAll(k - 1), TryAcquire(k - 1));
      AfterOneMore(stock, AcquireAll(k - 1) + [TryAcquire(k - 1)], PopFront(k - 1));
    }
  }

  /** So "exhausted" does not mean an empty deque: every pool has a run that reports
      it between a push-back and the release of its permit. */
  lemma ExhaustedWithSessionAvailable(stock: seq<Session>) returns (events: seq<Event>)
    requires stock != []
    ensures ReportOf(After(stock, events), TryAcquire(|stock|)) == Exhausted
    ensures After(stock, events).sessions == [stock[0]]
  {
    events := AcquireAll(|stock|) + [PushBack(0)];
    AfterAcquireAll(stock, |stock|);
    AfterOneMore(stock, AcquireAll(|stock|), PushBack(0));
  }

  // ── Who holds which session ───────────────────────────────────────────────

  ghost function Lent(p: Pool): set<Session> {
    set c | c in Holders(p) :: p.calls[c].session
  }

  /** Every opened session is in one place only: at one deque position or with
      one live guard. */
  ghost predicate Conserved(p: Pool, stock: set<Session>) {
    && NoDuplicates(p.sessions)
    && (forall c, d :: c in Holders(p) && d in Holders(p) && c != d ==> p.calls[c].session != p.calls[d].session)
    && Elements(p.sessions) !! Lent(p)
    && Elements(p.sessions) + Lent(p) == stock
  }

  lemma PopConserves(p: Pool, c: CallId, stock: set<Session>)
    requires Conserved(p, stock) && Enabled(p, PopFront(c)) && p.sessions != []
    ensures Conserved(Step(p, PopFront(c)), stock)
  {
    var q := Step(p, PopFront(c));
    var s := p.sessions[0];
    assert Holders(q) == Holders(p) + {c};
    assert forall d :: d in Holders(p) ==> p.calls[d].session in Lent(p);
    assert forall d :: d in Holders(p) ==> q.calls[d] == p.calls[d];
    assert Elements(q.sessions) == Elements(p.sessions) - {s};
    forall x ensures x in Lent(q) <==> x in Lent(p) + {s} {
      if x == s {
        assert q.calls[c].session == s;
      } else if x in Lent(p) {
        var d :| d in Holders(p) && p.calls[d].session == x;
        assert q.calls[d].session == x;
      }
    }
  }

  lemma PushConserves(p: Pool, c: CallId, stock: set<Session>)
    requires Conserved(p, stock) && Enabled(p, PushBack(c))
    ensures Conserved(Step(p, PushBack(c)), stock)
  {
    var q := Step(p, PushBack(c));
    var s := p.calls[c].session;
    assert c in Holders(p) && s in Lent(p);
    assert Holders(q) == Holders(p) - {c};
    assert Elements(q.sessions) == Elements(p.sessions) + {s};
    forall x ensures x in Lent(q) <==> x in Lent(p) - {s} {
      if x in Lent(p) && x != s {
        var d :| d in Holders(p) && p.calls[d].session == x;
        assert q.calls[d].session == x;
      }
    }
  }

  lemma PermitStepsConserve(p: Pool, e: Event, stock: set<Session>)
    requires Conserved(p, stock) && (e.TryAcquire? || e.ReleasePermit?)
    ensures Conserved(Step(p, e), stock)
  {
    var q := Step(p, e);
    assert Holders(q) == Holders(p);
    assert forall d :: d in Holders(p) ==> q.calls[d] == p.calls[d];
    assert Lent(q) == Lent(p);
  }

  lemma {:induction false} RunsConserveSessions(stock: seq<Session>, events: seq<Event>)
    requires NoDuplicates(stock)
    ensures Conserved(After(stock, events), Elements(stock))
  {
    if events == [] {
      assert Holders(Initial(stock)) == {};
    } else {
      var before, e := events[..|events| - 1], events[|events| - 1];
      var p := After(stock, before);
      RunsConserveSessions(stock, before);
      RunsStayBalanced(stock, before);
      if Enabled(p, e) {
        match e {
          case PopFront(c) =>
            StepKeepsBalance(p, e, |stock|);
            PopConserves(p, c, Elements(stock));
          case PushBack(c) => PushConserves(p, c, Elements(stock));
          case _ => PermitStepsConserve(p, e, Elements(stock));
        }
      }
    }
  }

  /** No session is ever lent to two guards, nor lent while it is in the deque;
      and once no call is alive the pool is whole again. */
  lemma NoSessionIsLentTwice(stock: seq<Session>, events: seq<Event>, c: CallId, d: CallId)
    requires NoDuplicates(stock)
    ensures var p := After(stock, events);
      && (c in Holders(p) && d in Holders(p) && c != d ==> p.calls[c].session != p.calls[d].session)
      && (c in Holders(p) ==> p.calls[c].session in stock && p.calls[c].session !in p.sessions)
      && (p.calls == map[] ==> p.permits == |stock| == |p.sessions| && Elements(p.sessions) == Elements(stock))
  {
    RunsConserveSessions(stock, events);
    RunsStayBalanced(stock, events);
    var p := After(stock, events);
    if c in Holders(p) {
      assert p.calls[c].session in Lent(p);
    }
    if p.calls == map[] {
      assert Waiting(p) == {} && Handing(p) == {} && Holders(p) == {};
      assert Lent(p) == {};
    }
  }

  // ── Lending order ─────────────────────────────────────────────────────────

  /** The session an event grants, if any. */
  function GrantedBy(p: Pool, e: Event): seq<Session> {
    var r := ReportOf(p, e);
    if r.Granted? then [r.session] else []
  }

  /** The session an event hands back, if any. */
  function HandedBackBy(p: Pool, e: Event): seq<Session> {
    if e.PushBack? && Enabled(p, e) then [p.calls[e.call].session] else []
  }

  /** The sessions granted during a run, in order. */
  ghost function Grants(stock: seq<Session>, events: seq<Event>): seq<Session> {
    if events == [] then [] else
      var before := events[..|events| - 1];
      Grants(stock, before) + GrantedBy(After(stock, before), events[|events| - 1])
  }

  /** The sessions handed back during a run, in order. */
  ghost function GivenBack(stock: seq<Session>, events: seq<Event>): seq<Session> {
    if events == [] then [] else
      var before := events[..|events| - 1];
      GivenBack(stock, before) + HandedBackBy(After(stock, before), events[|events| - 1])
  }

  /** An event takes from the front of the deque what it grants and puts at its
      back what it hands back. */
  lemma StepMovesSessions(p: Pool, e: Event)
    ensures GrantedBy(p, e) + Step(p, e).sessions == p.sessions + HandedBackBy(p, e)
  {
    if Enabled(p, e) && e.PopFront? && p.sessions != [] {
      assert p.sessions == [p.sessions[0]] + p.sessions[1..];
    }
  }

  lemma QueueLaw<T>(stock: seq<T>, taken: seq<T>, added: seq<T>, queue: seq<T>, front: seq<T>, back: seq<T>, rest: seq<T>)
    requires taken + queue == stock + added && front + rest == queue + back
    ensures taken + front + rest == stock + (added + back)
  {
    assert taken + front + rest == taken + (front + rest);
    assert taken + (queue + back) == (taken + queue) + back;
    assert (stock + added) + back == stock + (added + back);
  }

  /** Sessions are lent strictly in the order they became available: the grants
      followed by what is still queued are the opened sessions followed by the
      returned ones. */
  lemma {:induction false} GrantsFollowReturnOrder(stock: seq<Session>, events: seq<Event>)
    ensures Grants(stock, events) + After(stock, events).sessions == stock + GivenBack(stock, events)
  {
    if events == [] {
    } else {
      var before, e := events[..|events| - 1], events[|events| - 1];
      GrantsFollowReturnOrder(stock, before);
      var p := After(stock, before);
      StepMovesSessions(p, e);
      QueueLaw(stock, Grants(stock, before), GivenBack(stock, before), p.sessions, GrantedBy(p, e), HandedBackBy(p, e),
               Step(p, e).sessions);
      hide Step, GrantedBy, HandedBackBy;
    }
  }

  // ── The pool object ───────────────────────────────────────────────────────

  datatype PoolError = SessionError(index: nat) | SessionPoolExhausted

  /** What the token answers to the i-th open-and-login attempt. */
  datatype OpenOutcome = LoggedIn(session: Session) | OpenRefused | LoginRefused

  /** Opens the sessions eagerly and stops at the first refusal. */
  method OpenSessions(token: nat -> OpenOutcome, capacity: nat) returns (r: Result<seq<Session>, PoolError>)
    requires capacity > 0
    ensures r.Ok? <==> forall i :: 0 <= i < capacity ==> token(i).LoggedIn?
    ensures r.Ok? ==> |r.value| == capacity && forall i :: 0 <= i < capacity ==> token(i) == LoggedIn(r.value[i])
    ensures r.Err? ==> r.error.SessionError? && r.error.index < capacity && !token(r.error.index).LoggedIn?
    ensures r.Err? ==> forall i :: 0 <= i < r.error.index ==> token(i).LoggedIn?
  {
    var sessions: seq<Session> := [];
    for i := 0 to capacity
      invariant |sessions| == i
      invariant forall k :: 0 <= k < i ==> token(k) == LoggedIn(sessions[k])
    {
      var outcome := token(i);
      if !outcome.LoggedIn? {
        return Err(SessionError(i));
      }
      sessions := sessions + [outcome.session];
    }
    return Ok(sessions);
  }

  class Pkcs11SessionPool {
    var sessions: seq<Session>
    var permits: nat
    ghost var calls: map<CallId, Phase>
    ghost const stock: seq<Session>

    ghost function View(): Pool
      reads this
    {
      Pool(sessions, permits, calls)
    }

    ghost predicate Valid()
      reads this
    {
      Balanced(View(), |stock|) && Conserved(View(), Elements(stock))
    }

    constructor (logged: seq<Session>)
      requires NoDuplicates(logged)
      ensures Valid() && stock == logged && View() == Initial(logged)
    {
      sessions, permits, calls, stock := logged, |logged|, map[], logged;
      new;
      RunsStayBalanced(logged, []);
      RunsConserveSessions(logged, []);
    }

    method TryAcquirePermit(ghost c: CallId) returns (granted: bool)
      requires Valid() && Enabled(View(), TryAcquire(c))
      modifies this
      ensures Valid() && View() == Step(old(View()), TryAcquire(c))
      ensures granted <==> old(permits) > 0
    {
      StepKeepsBalance(View(), TryAcquire(c), |stock|);
      PermitStepsConserve(View(), TryAcquire(c), Elements(stock));
      granted := permits > 0;
      if granted {
        permits := permits - 1;
        calls := calls[c := Permitted];
      }
    }

    /** The pop under the mutex; the deque is never empty here, whatever other
        calls did since this one got its permit. */
    method PopSession(ghost c: CallId) returns (s: Session)
      requires Valid() && Enabled(View(), PopFront(c))
      modifies this
      ensures Valid() && View() == Step(old(View()), PopFront(c))
      ensures Granted(s) == ReportOf(old(View()), PopFront(c))
    {
      StepKeepsBalance(View(), PopFront(c), |stock|);
      PopConserves(View(), c, Elements(stock));
      s := sessions[0];
      sessions := sessions[1..];
      calls := calls[c := Holding(s)];
    }

    /** `acquire` with no other call in between. */
    method Acquire(ghost c: CallId) returns (r: Result<Session, PoolError>)
      requires Valid() && Enabled(View(), TryAcquire(c))
      modifies this
      ensures Valid()
      ensures r.Err? <==> |old(calls)| == |stock|
      ensures r.Err? ==> r.error == SessionPoolExhausted && View() == old(View())
      ensures r.Ok? ==> View() == Step(Step(old(View()), TryAcquire(c)), PopFront(c))
      ensures r.Ok? ==> c in calls && calls[c] == Holding(r.value) && old(sessions) != [] && r.value == old(sessions)[0]
    {
      assert permits + |calls| == |stock|;
      hide Balanced, Conserved;
      var granted := TryAcquirePermit(c);
      if !granted {
        return Err(SessionPoolExhausted);
      }
      var s := PopSession(c);
      return Ok(s);
    }

    method PushSession(ghost c: CallId, s: Session)
      requires Valid() && c in calls && calls[c] == Holding(s)
      modifies this
      ensures Valid() && View() == Step(old(View()), PushBack(c))
    {
      StepKeepsBalance(View(), PushBack(c), |stock|);
      PushConserves(View(), c, Elements(stock));
      sessions := sessions + [s];
      calls := calls[c := Returned];
    }

    method ReleaseOne(ghost c: CallId)
      requires Valid() && c in calls && calls[c].Returned?
      modifies this
      ensures Valid() && View() == Step(old(View()), ReleasePermit(c))
    {
      StepKeepsBalance(View(), ReleasePermit(c), |stock|);
      PermitStepsConserve(View(), ReleasePermit(c), Elements(stock));
      permits := permits + 1;
      calls := calls - {c};
    }

    /** `PooledSession::drop`: push back first, then let go of the permit. */
    method Drop(ghost c: CallId, s: Session)
      requires Valid() && c in calls && calls[c] == Holding(s)
      modifies this
      ensures Valid() && View() == Step(Step(old(View()), PushBack(c)), ReleasePermit(c))
      ensures sessions == old(sessions) + [s] && permits == old(permits) + 1 && calls == old(calls) - {c}
    {
      hide Balanced, Conserved;
      PushSession(c, s);
      ReleaseOne(c);
    }
  }
}
