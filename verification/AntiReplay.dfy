/** `AntiReplayTicketer`: the rotating ticketer behind the single-use guard.

    One `decrypt` call has two atomic sections. `Validate` opens the ticket under
    the ticketer's read lock; `Guard` checks and records its fingerprint under the
    table's lock, with a clock reading made before that lock. Sections of
    concurrent calls, rotations and newly issued tickets interleave freely. */
module AntiReplay {
  import opened Bytes
  import opened KeyRings
  import opened Ticketers
  import RG = ReplayGuards

  type CallId = nat

  datatype Config = Config(
    sealer: Sealer,
    digest: ByteString -> Fingerprint,
    first: Key,
    lifetime: nat)

  datatype Opened = Opened(ticket: ByteString, plain: ByteString)

  datatype State = State(ring: Ring, seen: RG.Table, pending: map<CallId, Opened>)

  datatype Event =
    | Issue(nonce: Nonce, plain: ByteString)
    | Rotation(newKey: Option<Key>)
    | Validate(call: CallId, ticket: ByteString)
    | Guard(call: CallId, now: nat)

  function Step(cfg: Config, s: State, e: Event): State {
    match e
    case Issue(_, _) => s
    case Rotation(k) => s.(ring := Rotate(s.ring, k))
    case Validate(c, t) =>
      if c in s.pending then s else (
        match Open(cfg.sealer, s.ring, t)
        case None => s
        case Some(p) => s.(pending := s.pending[c := Opened(t, p)]))
    case Guard(c, now) =>
      if c !in s.pending then s
      else s.(seen := RG.Record(s.seen, cfg.digest(s.pending[c].ticket), now, cfg.lifetime),
              pending := s.pending - {c})
  }

  /** The state after the first `n` events. */
  function After(cfg: Config, es: seq<Event>, n: nat): State
    requires n <= |es|
  {
    if n == 0 then State(Ring(cfg.first, None), map[], map[])
    else Step(cfg, After(cfg, es, n - 1), es[n - 1])
  }

  /** Event `i` is the guard section of a call whose ticket opened. */
  predicate Guards(cfg: Config, es: seq<Event>, i: nat)
    requires i < |es|
  {
    es[i].Guard? && es[i].call in After(cfg, es, i).pending
  }

  function Presented(cfg: Config, es: seq<Event>, i: nat): Opened
    requires i < |es| && Guards(cfg, es, i)
  {
    After(cfg, es, i).pending[es[i].call]
  }

  function FingerprintAt(cfg: Config, es: seq<Event>, i: nat): Fingerprint
    requires i < |es| && Guards(cfg, es, i)
  {
    cfg.digest(Presented(cfg, es, i).ticket)
  }

  /** What `decrypt` returns when its guard section is event `i`. */
  function Answer(cfg: Config, es: seq<Event>, i: nat): Option<ByteString>
    requires i < |es| && Guards(cfg, es, i)
  {
    match RG.VerdictFor(After(cfg, es, i).seen, FingerprintAt(cfg, es, i), es[i].now, cfg.lifetime)
    case Fresh => Some(Presented(cfg, es, i).plain)
    case Replayed => None
  }

  // ── The guard sections of a run, as a run of the replay guard ─────────────

  function GuardCalls(cfg: Config, es: seq<Event>, n: nat): seq<RG.Call>
    requires n <= |es|
  {
    if n == 0 then []
    else GuardCalls(cfg, es, n - 1) +
         if Guards(cfg, es, n - 1) then [RG.Call(FingerprintAt(cfg, es, n - 1), es[n - 1].now)] else []
  }

  lemma {:induction false} TableIsGuardRun(cfg: Config, es: seq<Event>, n: nat)
    requires n <= |es|
    ensures After(cfg, es, n).seen == RG.TableAfter(GuardCalls(cfg, es, n), cfg.lifetime)
  {
    if n == 0 {
    } else {
      TableIsGuardRun(cfg, es, n - 1);
      var before, calls := GuardCalls(cfg, es, n - 1), GuardCalls(cfg, es, n);
      if Guards(cfg, es, n - 1) {
        assert calls[..|calls| - 1] == before;
      } else {
        assert calls == before;
      }
    }
  }

  lemma {:induction false} GuardCallsGrow(cfg: Config, es: seq<Event>, m: nat, n: nat)
    requires m <= n <= |es|
    ensures GuardCalls(cfg, es, m) <= GuardCalls(cfg, es, n)
  {
    if m == n {
    } else {
      GuardCallsGrow(cfg, es, m, n - 1);
    }
  }

  /** Guard section `i` is call number `|GuardCalls(i)|` of the guard's run, with
      the verdict that decides its answer. */
  lemma GuardSectionIsCall(cfg: Config, es: seq<Event>, i: nat, n: nat)
    requires i < n <= |es| && Guards(cfg, es, i)
    ensures var calls, p := GuardCalls(cfg, es, n), |GuardCalls(cfg, es, i)|;
      && p < |calls| && calls[..p] == GuardCalls(cfg, es, i)
      && calls[p] == RG.Call(FingerprintAt(cfg, es, i), es[i].now)
      && (Answer(cfg, es, i).Some? <==> RG.VerdictAt(calls, cfg.lifetime, p) == RG.Fresh)
  {
    GuardCallsGrow(cfg, es, i + 1, n);
    TableIsGuardRun(cfg, es, i);
    var calls, p := GuardCalls(cfg, es, n), |GuardCalls(cfg, es, i)|;
    assert calls[..p] == GuardCalls(cfg, es, i + 1)[..p] == GuardCalls(cfg, es, i);
  }

  /** The event behind call number `p` of the guard's run. */
  ghost function EventOf(cfg: Config, es: seq<Event>, n: nat, p: nat): (i: nat)
    requires n <= |es| && p < |GuardCalls(cfg, es, n)|
    ensures i < n && Guards(cfg, es, i) && |GuardCalls(cfg, es, i)| == p
  {
    if p < |GuardCalls(cfg, es, n - 1)| then EventOf(cfg, es, n - 1, p) else n - 1
  }

  /** The readings of guard sections, in lock order, lag at most `d` seconds. */
  ghost predicate ReadingsLag(cfg: Config, es: seq<Event>, d: nat) {
    forall i, j :: 0 <= i < j < |es| && Guards(cfg, es, i) && Guards(cfg, es, j) ==> es[i].now <= es[j].now + d
  }

  lemma GuardRunLags(cfg: Config, es: seq<Event>, d: nat)
    requires ReadingsLag(cfg, es, d)
    ensures RG.LagsAtMost(GuardCalls(cfg, es, |es|), d)
  {
    var calls := GuardCalls(cfg, es, |es|);
    forall p, q | 0 <= p < q < |calls| ensures calls[p].now <= calls[q].now + d {
      var i, j := EventOf(cfg, es, |es|, p), EventOf(cfg, es, |es|, q);
      GuardSectionIsCall(cfg, es, i, |es|);
      GuardSectionIsCall(cfg, es, j, |es|);
      if j <= i {
        GuardCallsGrow(cfg, es, j, i);
        assert false;
      }
    }
  }

  // ── Single use over whole runs ────────────────────────────────────────────

  /** Whatever is rotated, issued or presented in between, and however the calls
      interleave, two accepted presentations of one ticket are more than the
      ticket lifetime apart, less the lag of the clock readings. */
  lemma AcceptedTwiceOnlyAfterLifetime(cfg: Config, es: seq<Event>, d: nat, i: nat, j: nat)
    requires ReadingsLag(cfg, es, d)
    requires i < j < |es| && Guards(cfg, es, i) && Guards(cfg, es, j)
    requires Presented(cfg, es, i).ticket == Presented(cfg, es, j).ticket
    requires Answer(cfg, es, i).Some? && Answer(cfg, es, j).Some?
    ensures es[j].now + d > es[i].now + cfg.lifetime
  {
    GuardRunLags(cfg, es, d);
    GuardSectionIsCall(cfg, es, i, |es|);
    GuardSectionIsCall(cfg, es, j, |es|);
    GuardCallsGrow(cfg, es, i + 1, j);
    RG.FreshVerdictsAreFarApart(GuardCalls(cfg, es, |es|), cfg.lifetime, d,
                                |GuardCalls(cfg, es, i)|, |GuardCalls(cfg, es, j)|);
  }

  /** Guard section `i` accepted the fingerprint, at most a lifetime before `now`. */
  ghost predicate RecentlyAccepted(cfg: Config, es: seq<Event>, i: nat, key: Fingerprint, now: nat)
    requires i < |es|
  {
    && Guards(cfg, es, i) && Answer(cfg, es, i).Some?
    && FingerprintAt(cfg, es, i) == key && now <= es[i].now + cfg.lifetime
  }

  /** With non-decreasing readings, a ticket that opened is turned away exactly
      when its fingerprint was accepted at most one lifetime ago. */
  lemma AcceptedExactlyWhenUnused(cfg: Config, es: seq<Event>, j: nat)
    requires ReadingsLag(cfg, es, 0) && j < |es| && Guards(cfg, es, j)
    ensures Answer(cfg, es, j).None? <==>
            exists i :: 0 <= i < j && RecentlyAccepted(cfg, es, i, FingerprintAt(cfg, es, j), es[j].now)
  {
    var calls, q := GuardCalls(cfg, es, |es|), |GuardCalls(cfg, es, j)|;
    var key, now := FingerprintAt(cfg, es, j), es[j].now;
    GuardRunLags(cfg, es, 0);
    GuardSectionIsCall(cfg, es, j, |es|);
    hide GuardCalls, Guards, Answer, FingerprintAt;
    RG.ReplayedExactlyWithinWindow(calls, cfg.lifetime, q);
    if i :| 0 <= i < j && RecentlyAccepted(cfg, es, i, key, now) {
      var p := AcceptanceAsCall(cfg, es, i, j, key, now);
    }
    if p :| 0 <= p < q && RG.AcceptedWithin(calls, cfg.lifetime, p, key, now) {
      var i := CallAsAcceptance(cfg, es, p, j, key, now);
    }
  }

  lemma AcceptanceAsCall(cfg: Config, es: seq<Event>, i: nat, j: nat, key: Fingerprint, now: nat) returns (p: nat)
    requires i < j < |es| && Guards(cfg, es, j) && RecentlyAccepted(cfg, es, i, key, now)
    ensures p < |GuardCalls(cfg, es, j)| <= |GuardCalls(cfg, es, |es|)|
    ensures RG.AcceptedWithin(GuardCalls(cfg, es, |es|), cfg.lifetime, p, key, now)
  {
    p := |GuardCalls(cfg, es, i)|;
    GuardSectionIsCall(cfg, es, i, |es|);
    GuardSectionIsCall(cfg, es, i, j);
    GuardCallsGrow(cfg, es, j, |es|);
  }

  lemma CallAsAcceptance(cfg: Config, es: seq<Event>, p: nat, j: nat, key: Fingerprint, now: nat) returns (i: nat)
    requires j < |es| && p < |GuardCalls(cfg, es, j)| <= |GuardCalls(cfg, es, |es|)|
    requires RG.AcceptedWithin(GuardCalls(cfg, es, |es|), cfg.lifetime, p, key, now)
    ensures i < j && RecentlyAccepted(cfg, es, i, key, now)
  {
    i := EventOf(cfg, es, j, p);
    GuardSectionIsCall(cfg, es, i, |es|);
  }

  /** Guard section `i` accepted the fingerprint of section `j`, and no reading of a
      guard section since is more than a lifetime ahead of it. */
  ghost predicate StillRemembered(cfg: Config, es: seq<Event>, i: nat, j: nat)
    requires i < j < |es| && Guards(cfg, es, j)
  {
    && Guards(cfg, es, i) && Answer(cfg, es, i).Some? && FingerprintAt(cfg, es, i) == FingerprintAt(cfg, es, j)
    && forall k :: i < k <= j && Guards(cfg, es, k) ==> es[k].now <= es[i].now + cfg.lifetime
  }

  /** Guard sections and calls of the guard's run come in the same order. */
  lemma CallOrder(cfg: Config, es: seq<Event>, i: nat, k: nat)
    requires i < |es| && k < |es| && Guards(cfg, es, i) && Guards(cfg, es, k)
    ensures i < k <==> |GuardCalls(cfg, es, i)| < |GuardCalls(cfg, es, k)|
  {
    if i < k {
      GuardCallsGrow(cfg, es, i + 1, k);
    } else {
      GuardCallsGrow(cfg, es, k, i);
    }
  }

  lemma RememberedAsCall(cfg: Config, es: seq<Event>, i: nat, j: nat)
    requires i < j < |es| && Guards(cfg, es, j) && StillRemembered(cfg, es, i, j)
    ensures var calls, p, q := GuardCalls(cfg, es, |es|), |GuardCalls(cfg, es, i)|, |GuardCalls(cfg, es, j)|;
      p < q < |calls| && RG.Remembered(calls, cfg.lifetime, p, q)
  {
    var calls, p, q := GuardCalls(cfg, es, |es|), |GuardCalls(cfg, es, i)|, |GuardCalls(cfg, es, j)|;
    GuardSectionIsCall(cfg, es, i, |es|);
    GuardSectionIsCall(cfg, es, j, |es|);
    CallOrder(cfg, es, i, j);
    forall r | p < r <= q ensures !RG.Outdates(calls, cfg.lifetime, p, r) {
      var k := EventOf(cfg, es, |es|, r);
      GuardSectionIsCall(cfg, es, k, |es|);
      CallOrder(cfg, es, i, k);
      CallOrder(cfg, es, j, k);
    }
  }

  lemma CallAsRemembered(cfg: Config, es: seq<Event>, p: nat, j: nat) returns (i: nat)
    requires j < |es| && Guards(cfg, es, j) && p < |GuardCalls(cfg, es, j)| < |GuardCalls(cfg, es, |es|)|
    requires RG.Remembered(GuardCalls(cfg, es, |es|), cfg.lifetime, p, |GuardCalls(cfg, es, j)|)
    ensures i < j && StillRemembered(cfg, es, i, j)
  {
    var calls := GuardCalls(cfg, es, |es|);
    i := EventOf(cfg, es, j, p);
    GuardSectionIsCall(cfg, es, i, |es|);
    GuardSectionIsCall(cfg, es, j, |es|);
    forall k | i < k <= j && Guards(cfg, es, k) ensures es[k].now <= es[i].now + cfg.lifetime {
      GuardSectionIsCall(cfg, es, k, |es|);
      CallOrder(cfg, es, i, k);
      CallOrder(cfg, es, j, k);
      assert !RG.Outdates(calls, cfg.lifetime, p, |GuardCalls(cfg, es, k)|);
    }
  }

  /** Whatever the clock does: a ticket that opened is turned away exactly when an
      acceptance of its fingerprint is still remembered. */
  lemma TurnedAwayExactlyWhenRemembered(cfg: Config, es: seq<Event>, j: nat)
    requires j < |es| && Guards(cfg, es, j)
    ensures Answer(cfg, es, j).None? <==> exists i :: 0 <= i < j && StillRemembered(cfg, es, i, j)
  {
    var calls, q := GuardCalls(cfg, es, |es|), |GuardCalls(cfg, es, j)|;
    GuardSectionIsCall(cfg, es, j, |es|);
    RG.ReplayedExactlyWhenRemembered(calls, cfg.lifetime, q);
    hide GuardCalls, Guards, Answer, FingerprintAt, StillRemembered;
    if i :| 0 <= i < j && StillRemembered(cfg, es, i, j) {
      RememberedAsCall(cfg, es, i, j);
    }
    if p :| 0 <= p < q && RG.Remembered(calls, cfg.lifetime, p, q) {
      var i := CallAsRemembered(cfg, es, p, j);
    }
  }

  // ── What can enter the table ──────────────────────────────────────────────

  /** Event `i` validated a ticket with this fingerprint. */
  ghost predicate Validated(cfg: Config, es: seq<Event>, i: nat, key: Fingerprint)
    requires i < |es|
  {
    && es[i].Validate? && cfg.digest(es[i].ticket) == key
    && Open(cfg.sealer, After(cfg, es, i).ring, es[i].ticket).Some?
  }

  ghost predicate EverValidated(cfg: Config, es: seq<Event>, n: nat, key: Fingerprint)
    requires n <= |es|
  {
    exists i :: 0 <= i < n && Validated(cfg, es, i, key)
  }

  /** The table cannot be poisoned: it only ever holds fingerprints of tickets
      the ticketer had opened. */
  lemma {:induction false} OnlyValidatedTicketsAreRecorded(cfg: Config, es: seq<Event>, n: nat)
    requires n <= |es|
    ensures forall key :: key in After(cfg, es, n).seen ==> EverValidated(cfg, es, n, key)
    ensures forall c :: c in After(cfg, es, n).pending ==>
              EverValidated(cfg, es, n, cfg.digest(After(cfg, es, n).pending[c].ticket))
  {
    if n == 0 {
    } else {
      OnlyValidatedTicketsAreRecorded(cfg, es, n - 1);
      var s, t, e := After(cfg, es, n - 1), After(cfg, es, n), es[n - 1];
      forall key | EverValidated(cfg, es, n - 1, key) ensures EverValidated(cfg, es, n, key) {
        var i :| 0 <= i < n - 1 && Validated(cfg, es, i, key);
        assert i < n;
      }
      if e.Validate? && e.call !in s.pending && e.call in t.pending {
        assert Validated(cfg, es, n - 1, cfg.digest(e.ticket));
      }
    }
  }

  /** A refused ticket leaves no trace: every later state of the run is the one the
      run without that presentation reaches. */
  lemma {:induction false} RefusedTicketsLeaveNoTrace(cfg: Config, es: seq<Event>, k: nat, n: nat)
    requires k < n <= |es| && es[k].Validate?
    requires Open(cfg.sealer, After(cfg, es, k).ring, es[k].ticket).None?
    ensures After(cfg, es, n) == After(cfg, es[..k] + es[k + 1..], n - 1)
  {
    var without := es[..k] + es[k + 1..];
    if n == k + 1 {
      SharedPrefix(cfg, es, without, k);
    } else {
      RefusedTicketsLeaveNoTrace(cfg, es, k, n - 1);
      assert without[n - 2] == es[n - 1];
    }
  }

  lemma {:induction false} SharedPrefix(cfg: Config, es: seq<Event>, fs: seq<Event>, n: nat)
    requires n <= |es| && n <= |fs| && es[..n] == fs[..n]
    ensures After(cfg, es, n) == After(cfg, fs, n)
  {
    if n == 0 {
    } else {
      assert es[..n - 1] == es[..n][..n - 1] == fs[..n][..n - 1] == fs[..n - 1];
      SharedPrefix(cfg, es, fs, n - 1);
      assert es[n - 1] == es[..n][n - 1] == fs[..n][n - 1] == fs[n - 1];
    }
  }

  lemma {:induction false} RecordedOnlyByGuards(cfg: Config, es: seq<Event>, n: nat, key: Fingerprint) returns (i: nat)
    requires n <= |es| && key in After(cfg, es, n).seen
    ensures i < n && Guards(cfg, es, i) && FingerprintAt(cfg, es, i) == key
  {
    if key in After(cfg, es, n - 1).seen {
      i := RecordedOnlyByGuards(cfg, es, n - 1, key);
    } else {
      i := n - 1;
    }
  }

  // ── A first presentation succeeds ─────────────────────────────────────────

  function RotationsIn(es: seq<Event>, m: nat, n: nat): seq<Option<Key>>
    requires m <= n <= |es|
  {
    if m == n then []
    else RotationsIn(es, m, n - 1) + if es[n - 1].Rotation? then [es[n - 1].newKey] else []
  }

  lemma {:induction false} RotationsJoin(es: seq<Event>, m: nat, n: nat)
    requires m <= n <= |es|
    ensures RotationsIn(es, 0, n) == RotationsIn(es, 0, m) + RotationsIn(es, m, n)
  {
    if m == n {
    } else {
      RotationsJoin(es, m, n - 1);
    }
  }

  lemma {:induction false} RingFollowsRotations(cfg: Config, es: seq<Event>, n: nat)
    requires n <= |es|
    ensures After(cfg, es, n).ring == RingAfter(cfg.first, RotationsIn(es, 0, n))
  {
    if n == 0 {
    } else {
      RingFollowsRotations(cfg, es, n - 1);
      var before, rs := RotationsIn(es, 0, n - 1), RotationsIn(es, 0, n);
      if es[n - 1].Rotation? {
        assert rs[..|rs| - 1] == before;
      } else {
        assert rs == before;
      }
    }
  }

  /** A call that opened its ticket keeps the result until its guard section. */
  lemma {:induction false} PendingIsKept(cfg: Config, es: seq<Event>, c: CallId, m: nat, n: nat)
    requires m <= n <= |es| && c in After(cfg, es, m).pending
    requires forall k :: m <= k < n ==> !(es[k].Guard? && es[k].call == c)
    ensures c in After(cfg, es, n).pending && After(cfg, es, n).pending[c] == After(cfg, es, m).pending[c]
  {
    if m == n {
    } else {
      PendingIsKept(cfg, es, c, m, n - 1);
    }
  }

  /** No guard section before `j` is about this ticket. */
  ghost predicate FirstPresentation(cfg: Config, es: seq<Event>, j: nat, ticket: ByteString)
    requires j <= |es|
  {
    forall k :: 0 <= k < j && Guards(cfg, es, k) ==> Presented(cfg, es, k).ticket != ticket
  }

  /** No guard section before `j` is about another ticket with its fingerprint. */
  ghost predicate CollisionFree(cfg: Config, es: seq<Event>, j: nat, ticket: ByteString)
    requires j <= |es|
  {
    forall k :: 0 <= k < j && Guards(cfg, es, k) && FingerprintAt(cfg, es, k) == cfg.digest(ticket) ==>
      Presented(cfg, es, k).ticket == ticket
  }

  /** Event `m` issued the ticket, and no key generated after it up to event `n`
      opens the ticket by accident. */
  ghost predicate IssuedAt(cfg: Config, es: seq<Event>, m: nat, n: nat, ticket: ByteString)
    requires m < n <= |es|
  {
    && es[m].Issue?
    && cfg.sealer.seal(After(cfg, es, m).ring.current, es[m].nonce, es[m].plain) == Some(ticket)
    && NewerKeysRefuse(cfg.sealer, Generated(cfg.first, RotationsIn(es, 0, n)), Successes(RotationsIn(es, 0, m)), ticket)
  }

  /** An issued ticket opens, at any later point of the run, exactly when at most
      one rotation has succeeded since. */
  lemma IssuedTicketOpens(cfg: Config, es: seq<Event>, m: nat, v: nat, n: nat, ticket: ByteString)
    requires m < v <= n <= |es| && Lawful(cfg.sealer) && IssuedAt(cfg, es, m, n, ticket)
    ensures Open(cfg.sealer, After(cfg, es, v).ring, ticket)
            == if Successes(RotationsIn(es, m, v)) <= 1 then Some(es[m].plain) else None
  {
    RotationsJoin(es, m, v);
    RotationsJoin(es, v, n);
    RingFollowsRotations(cfg, es, m);
    RingFollowsRotations(cfg, es, v);
    var earlier, later := RotationsIn(es, 0, m), RotationsIn(es, m, v);
    GeneratedGrows(cfg.first, RotationsIn(es, 0, v), RotationsIn(es, v, n));
    assert NewerKeysRefuse(cfg.sealer, Generated(cfg.first, earlier + later), Successes(earlier), ticket);
    TicketsLiveForOneRotation(cfg.sealer, cfg.first, earlier, later, ticket, es[m].plain);
  }

  /** Events `v` and `j` are the two sections of one call. */
  ghost predicate OneCall(cfg: Config, es: seq<Event>, v: nat, j: nat)
    requires v < j < |es|
  {
    && es[v].Validate? && es[j].Guard? && es[j].call == es[v].call
    && es[v].call !in After(cfg, es, v).pending
    && forall k :: v < k < j ==> !OfCall(es[k], es[v].call)
  }

  predicate OfCall(e: Event, c: CallId) {
    (e.Validate? || e.Guard?) && e.call == c
  }

  /** A ticket issued at event `m` and first presented by the call of events `i`
      and `j`, with at most one successful rotation before `i`, yields its exact
      plaintext, even if keys were rotated again between `i` and `j`. Nothing is
      asked of the clock. */
  lemma FirstPresentationReturnsPlaintext(cfg: Config, es: seq<Event>, m: nat, i: nat, j: nat)
    requires m < i < j < |es| && OneCall(cfg, es, i, j)
    requires Lawful(cfg.sealer) && IssuedAt(cfg, es, m, i, es[i].ticket)
    requires Successes(RotationsIn(es, m, i)) <= 1
    requires FirstPresentation(cfg, es, j, es[i].ticket) && CollisionFree(cfg, es, j, es[i].ticket)
    ensures Guards(cfg, es, j) && Answer(cfg, es, j) == Some(es[m].plain)
  {
    var ticket := es[i].ticket;
    IssuedTicketOpens(cfg, es, m, i, i, ticket);
    PendingIsKept(cfg, es, es[i].call, i + 1, j);
    if cfg.digest(ticket) in After(cfg, es, j).seen {
      var k := RecordedOnlyByGuards(cfg, es, j, cfg.digest(ticket));
      assert false;
    }
  }

  /** The same for tickets of the version-byte wire format. All it needs of the
      cipher is that it inverts itself and that no newer key accepts the one
      ciphertext. */
  lemma OxiFirstPresentation(cfg: Config, a: Aead, es: seq<Event>, m: nat, i: nat, j: nat)
    requires cfg.sealer == OxiSealer(a) && LawfulAead(a)
    requires m < i < j < |es| && es[m].Issue? && OneCall(cfg, es, i, j)
    requires SealTicket(a, After(cfg, es, m).ring.current, es[m].nonce, es[m].plain) == Some(es[i].ticket)
    requires NewerKeysReject(a, Generated(cfg.first, RotationsIn(es, 0, i)), Successes(RotationsIn(es, 0, m)), es[m].nonce,
                             AAD, a.encrypt(After(cfg, es, m).ring.current, es[m].nonce, AAD, es[m].plain).value)
    requires Successes(RotationsIn(es, m, i)) <= 1
    requires FirstPresentation(cfg, es, j, es[i].ticket) && CollisionFree(cfg, es, j, es[i].ticket)
    ensures |es[i].ticket| == |es[m].plain| + OVERHEAD
    ensures Guards(cfg, es, j) && Answer(cfg, es, j) == Some(es[m].plain)
  {
    var keys, g := Generated(cfg.first, RotationsIn(es, 0, i)), Successes(RotationsIn(es, 0, m));
    var k := After(cfg, es, m).ring.current;
    OxiTicketRefusal(a, k, es[m].nonce, es[m].plain, keys, g);
    TicketLayout(a, k, es[m].nonce, es[m].plain, k);
    OxiSealerLaws(a, []);
    FirstPresentationReturnsPlaintext(cfg, es, m, i, j);
  }

  // ── Reuse after the window ────────────────────────────────────────────────

  /** The event at which a pending call opened its ticket. */
  ghost function OpeningOf(cfg: Config, es: seq<Event>, n: nat, c: CallId): (v: nat)
    requires n <= |es| && c in After(cfg, es, n).pending
    ensures v < n && es[v].Validate? && es[v].ticket == After(cfg, es, n).pending[c].ticket
    ensures Open(cfg.sealer, After(cfg, es, v).ring, es[v].ticket) == Some(After(cfg, es, n).pending[c].plain)
  {
    if c in After(cfg, es, n - 1).pending then OpeningOf(cfg, es, n - 1, c) else n - 1
  }

  ghost predicate Presents(cfg: Config, es: seq<Event>, i: nat, ticket: ByteString)
    requires i < |es|
  {
    Guards(cfg, es, i) && Presented(cfg, es, i).ticket == ticket
  }

  /** Presentations `i` and `j` of the ticket are too close for two acceptances, or
      `j` opened the ticket only after two rotations since its issue. */
  ghost predicate RetiredInTime(cfg: Config, es: seq<Event>, d: nat, m: nat, i: nat, j: nat)
    requires i < |es| && j < |es| && Guards(cfg, es, j) && Guards(cfg, es, i)
  {
    var v := OpeningOf(cfg, es, j, es[j].call);
    es[j].now + d > es[i].now + cfg.lifetime ==> m < v && Successes(RotationsIn(es, m, v)) >= 2
  }

  /** Nothing checks the age of a ticket when it is opened, so it is the rotations
      that make reuse after the window harmless: if two succeed before any
      presentation that comes more than a lifetime after another one, the ticket
      is accepted at most once in the whole run. */
  lemma AcceptedAtMostOnce(cfg: Config, es: seq<Event>, d: nat, m: nat, ticket: ByteString, i: nat, j: nat)
    requires Lawful(cfg.sealer) && ReadingsLag(cfg, es, d) && m < |es| && IssuedAt(cfg, es, m, |es|, ticket)
    requires i < j < |es| && Presents(cfg, es, i, ticket) && Presents(cfg, es, j, ticket)
    requires RetiredInTime(cfg, es, d, m, i, j)
    ensures !(Answer(cfg, es, i).Some? && Answer(cfg, es, j).Some?)
  {
    if Answer(cfg, es, i).Some? && Answer(cfg, es, j).Some? {
      AcceptedTwiceOnlyAfterLifetime(cfg, es, d, i, j);
      var v := OpeningOf(cfg, es, j, es[j].call);
      IssuedTicketOpens(cfg, es, m, v, |es|, ticket);
      assert false;
    }
  }

  /** No acceptance of the fingerprint before `j` is still inside the window. */
  ghost predicate WindowOver(cfg: Config, es: seq<Event>, j: nat, ticket: ByteString)
    requires j < |es| && es[j].Guard?
  {
    forall i :: 0 <= i < j ==> !RecentlyAccepted(cfg, es, i, cfg.digest(ticket), es[j].now)
  }

  lemma {:induction false} NotPendingIsKept(cfg: Config, es: seq<Event>, c: CallId, m: nat, n: nat)
    requires m <= n <= |es| && c !in After(cfg, es, m).pending
    requires forall k :: m <= k < n ==> !OfCall(es[k], c)
    ensures c !in After(cfg, es, n).pending
  {
    if m == n {
    } else {
      NotPendingIsKept(cfg, es, c, m, n - 1);
      assert !OfCall(es[n - 1], c);
    }
  }

  /** Once the window is over, a ticket is accepted again exactly when at most one
      rotation has succeeded since it was issued. */
  lemma ReuseSucceedsExactlyWhenNotRetired(cfg: Config, es: seq<Event>, m: nat, v: nat, j: nat)
    requires Lawful(cfg.sealer) && ReadingsLag(cfg, es, 0)
    requires m < v < j < |es| && OneCall(cfg, es, v, j) && IssuedAt(cfg, es, m, v, es[v].ticket)
    requires WindowOver(cfg, es, j, es[v].ticket)
    ensures (Guards(cfg, es, j) && Answer(cfg, es, j) == Some(es[m].plain)) <==> Successes(RotationsIn(es, m, v)) <= 1
    ensures Guards(cfg, es, j) <==> Successes(RotationsIn(es, m, v)) <= 1
  {
    var c := es[v].call;
    IssuedTicketOpens(cfg, es, m, v, v, es[v].ticket);
    if Successes(RotationsIn(es, m, v)) <= 1 {
      PendingIsKept(cfg, es, c, v + 1, j);
      AcceptedExactlyWhenUnused(cfg, es, j);
    } else {
      NotPendingIsKept(cfg, es, c, v + 1, j);
    }
  }

  /** A run without rotations in which one ticket is accepted twice, for every
      lifetime: present it again one second after the window. */
  function TwoPresentations(nonce: Nonce, plain: ByteString, ticket: ByteString, lifetime: nat): seq<Event> {
    [Issue(nonce, plain), Validate(0, ticket), Guard(0, 0), Validate(1, ticket), Guard(1, lifetime + 1)]
  }

  lemma TicketAcceptedTwice(cfg: Config, nonce: Nonce, plain: ByteString)
    requires Lawful(cfg.sealer) && cfg.sealer.seal(cfg.first, nonce, plain).Some?
    ensures var ticket := cfg.sealer.seal(cfg.first, nonce, plain).value;
      var es := TwoPresentations(nonce, plain, ticket, cfg.lifetime);
      && Presents(cfg, es, 2, ticket) && Presents(cfg, es, 4, ticket)
      && Answer(cfg, es, 2) == Some(plain) && Answer(cfg, es, 4) == Some(plain)
  {
    var ticket := cfg.sealer.seal(cfg.first, nonce, plain).value;
    var es := TwoPresentations(nonce, plain, ticket, cfg.lifetime);
    var ring, key := Ring(cfg.first, None), cfg.digest(ticket);
    assert Open(cfg.sealer, ring, ticket) == Some(plain);
    assert After(cfg, es, 1) == State(ring, map[], map[]);
    assert After(cfg, es, 2) == State(ring, map[], map[0 := Opened(ticket, plain)]);
    assert After(cfg, es, 3) == State(ring, map[key := 0], map[]);
    assert After(cfg, es, 4) == State(ring, map[key := 0], map[1 := Opened(ticket, plain)]);
  }

  // ── The wrapper object ────────────────────────────────────────────────────

  lemma AfterIgnoresLater(cfg: Config, es: seq<Event>, e: Event)
    ensures After(cfg, es + [e], |es|) == After(cfg, es, |es|)
    ensures After(cfg, es + [e], |es| + 1) == Step(cfg, After(cfg, es, |es|), e)
  {
    SharedPrefix(cfg, es + [e], es, |es|);
  }

  /** The rotations a ticketer went through before it was wrapped. */
  function RotationEvents(rotations: seq<Option<Key>>): seq<Event> {
    if rotations == [] then []
    else RotationEvents(rotations[..|rotations| - 1]) + [Rotation(rotations[|rotations| - 1])]
  }

  lemma {:induction false} AfterRotations(cfg: Config, rotations: seq<Option<Key>>)
    ensures var es := RotationEvents(rotations);
            After(cfg, es, |es|) == State(RingAfter(cfg.first, rotations), map[], map[])
  {
    if rotations == [] {
    } else {
      var before := rotations[..|rotations| - 1];
      AfterRotations(cfg, before);
      AfterIgnoresLater(cfg, RotationEvents(before), Rotation(rotations[|rotations| - 1]));
    }
  }

  /** A whole `decrypt` with no other call under way, as two events. */
  lemma SectionsOfDecrypt(cfg: Config, es: seq<Event>, ticket: ByteString, now: nat)
    requires After(cfg, es, |es|).pending == map[]
    ensures var s, fs := After(cfg, es, |es|), es + [Validate(0, ticket)];
      match Open(cfg.sealer, s.ring, ticket)
      case None => After(cfg, fs, |fs|) == s
      case Some(plain) =>
        var gs, key := fs + [Guard(0, now)], cfg.digest(ticket);
        && After(cfg, gs, |gs|) == s.(seen := RG.Record(s.seen, key, now, cfg.lifetime))
        && Presents(cfg, gs, |gs| - 1, ticket)
        && Answer(cfg, gs, |gs| - 1) ==
             if RG.VerdictFor(s.seen, key, now, cfg.lifetime) == RG.Fresh then Some(plain) else None
  {
    var fs := es + [Validate(0, ticket)];
    AfterIgnoresLater(cfg, es, Validate(0, ticket));
    AfterIgnoresLater(cfg, fs, Guard(0, now));
    var s, t := After(cfg, es, |es|), After(cfg, fs, |fs|);
    if Open(cfg.sealer, s.ring, ticket).Some? {
      assert t.pending == map[0 := Opened(ticket, Open(cfg.sealer, s.ring, ticket).value)];
      assert t.pending - {0} == map[];
    }
  }

  class AntiReplayTicketer {
    const inner: OxiTicketer
    const guard: RG.ReplayGuard
    ghost var events: seq<Event>

    ghost function Cfg(): Config {
      Config(OxiSealer(inner.cipher), guard.digest, inner.first, inner.lifetimeSecs)
    }

    ghost function View(): State
      reads inner, guard
    {
      State(Ring(inner.current, inner.previous), guard.seen, map[])
    }

    /** The object is in the state its events lead to, with no call under way. */
    ghost predicate Valid()
      reads this, inner, guard
    {
      && inner.Valid() && guard.Valid() && guard.windowSecs == inner.lifetimeSecs
      && View() == After(Cfg(), events, |events|)
    }

    constructor (inner: OxiTicketer, digest: ByteString -> Fingerprint)
      requires inner.Valid()
      ensures Valid() && this.inner == inner && guard.digest == digest && guard.calls == [] && fresh(guard)
      ensures events == RotationEvents(inner.rotations)
    {
      this.inner := inner;
      this.guard := new RG.ReplayGuard(inner.lifetimeSecs, digest);
      this.events := RotationEvents(inner.rotations);
      new;
      AfterRotations(Cfg(), inner.rotations);
    }

    method RotateKeys(newKey: Option<Key>) returns (ok: bool)
      requires Valid()
      modifies this, inner
      ensures Valid() && events == old(events) + [Rotation(newKey)] && ok == newKey.Some?
    {
      AfterIgnoresLater(Cfg(), events, Rotation(newKey));
      ok := inner.RotateKeys(newKey);
      events := events + [Rotation(newKey)];
    }

    method Encrypt(random: Option<Nonce>, plain: ByteString) returns (r: Option<ByteString>)
      requires Valid()
      modifies this
      ensures Valid()
      ensures random.None? ==> r == None && events == old(events)
      ensures random.Some? ==> events == old(events) + [Issue(random.value, plain)]
      ensures random.Some? ==> r == Cfg().sealer.seal(After(Cfg(), events, |events|).ring.current, random.value, plain)
    {
      r := inner.Encrypt(random, plain);
      if random.Some? {
        AfterIgnoresLater(Cfg(), events, Issue(random.value, plain));
        events := events + [Issue(random.value, plain)];
      }
    }

    /** Validates before recording; both sections run without interruption. The
        result is the answer of the guard section in the run so far. */
    method Decrypt(ticket: ByteString, now: nat) returns (r: Option<ByteString>)
      requires Valid()
      modifies this, guard
      ensures Valid()
      ensures var plain := Open(OxiSealer(inner.cipher), Ring(inner.current, inner.previous), ticket);
        if plain.None? then
          && r == None && guard.seen == old(guard.seen) && guard.calls == old(guard.calls)
          && events == old(events) + [Validate(0, ticket)]
        else
          && guard.calls == old(guard.calls) + [RG.Call(guard.digest(ticket), now)]
          && events == old(events) + [Validate(0, ticket)] + [Guard(0, now)]
          && Presents(Cfg(), events, |events| - 1, ticket) && r == Answer(Cfg(), events, |events| - 1)
    {
      SectionsOfDecrypt(Cfg(), events, ticket, now);
      hide After, Presents, Answer, RG.Record, RG.VerdictFor, RG.TableAfter;
      var plain := inner.Decrypt(ticket);
      events := events + [Validate(0, ticket)];
      if plain.None? {
        return None;
      }
      var verdict := guard.CheckAndRecord(ticket, now);
      events := events + [Guard(0, now)];
      match verdict {
        case Fresh => r := plain;
        case Replayed => r := None;
      }
    }
  }
}
