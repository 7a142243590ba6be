/** `AwsLcTicketRotator`: the background task that rotates the ticket key on a
    fixed interval, and the lifetime it advertises for tickets. Times and
    durations are counted in nanoseconds. */
module AwsLcRotator {
  import opened Bytes
  import opened KeyRings
  import opened Ticketers

  const SECOND := 1_000_000_000
  const U32_MAX := 0xFFFF_FFFF
  const U64_MAX := 0xFFFF_FFFF_FFFF_FFFF

  function Max(a: nat, b: nat): nat {
    if a >= b then a else b
  }

  function SaturatingMul64(a: nat, b: nat): nat {
    Min(a * b, U64_MAX)
  }

  /** The advertised lifetime in seconds. */
  function LifetimeSecs(interval: nat): nat {
    var intervalSecs := Max(interval / SECOND, 1);
    Max(Min(SaturatingMul64(2, intervalSecs), U32_MAX), 1)
  }

  /** The advertised lifetime is two whole intervals counted in seconds, at least
      two, and capped at 32 bits. */
  lemma LifetimeIsTwoWholeIntervals(interval: nat)
    ensures var l := LifetimeSecs(interval);
      && 2 <= l <= 0xFFFF_FFFF
      && (interval < 2_000_000_000 ==> l == 2)
      && (1_000_000_000 <= interval && l < 0xFFFF_FFFF ==>
            l % 2 == 0 && l * 1_000_000_000 <= 2 * interval < (l + 2) * 1_000_000_000)
      && (l == 0xFFFF_FFFF <==> interval / 1_000_000_000 >= 0x8000_0000)
  {
  }

  /** The advertised lifetime reaches as far as two rotation intervals exactly
      for intervals of at most one second, and for whole seconds whose double
      fits 32 bits; any other interval lets tickets outlive it. */
  lemma LifetimeCoversTwoIntervals(interval: nat)
    ensures LifetimeSecs(interval) * SECOND >= 2 * interval <==>
            interval <= SECOND || (interval % SECOND == 0 && 2 * (interval / SECOND) <= U32_MAX)
    ensures interval >= SECOND && interval % SECOND == 0 && 2 * (interval / SECOND) <= U32_MAX ==>
            LifetimeSecs(interval) * SECOND == 2 * interval
  {
    assert interval == SECOND * (interval / SECOND) + interval % SECOND;
  }

  // ── Ticket format: nonce (12) || ciphertext (n) || tag (16) ───────────────

  function SealAwsTicket(a: Aead, k: Key, n: Nonce, plain: ByteString): Option<ByteString> {
    match a.encrypt(k, n, [], plain)
    case None => None
    case Some(c) => Some(n + (c.ciphertext + c.tag))
  }

  function OpenAwsTicket(a: Aead, k: Key, ticket: ByteString): Option<ByteString> {
    if |ticket| < NONCE_LEN + TAG_LEN then None
    else
      var body := ticket[NONCE_LEN..];
      a.decrypt(k, ticket[..NONCE_LEN], [], Sealed(body[..|body| - TAG_LEN], body[|body| - TAG_LEN..]))
  }

  function AwsSealer(a: Aead): Sealer {
    Sealer((k: Key, n: Nonce, p: ByteString) => SealAwsTicket(a, k, n, p),
           (k: Key, t: ByteString) => OpenAwsTicket(a, k, t))
  }

  /** Any string of 28 bytes or more is taken apart at the same places; anything
      shorter is refused. */
  lemma OpeningAnyAwsBytes(a: Aead, k: Key, n: Nonce, c: ByteString, tag: ByteString)
    requires |tag| == 16
    ensures OpenAwsTicket(a, k, n + c + tag) == a.decrypt(k, n, [], Sealed(c, tag))
  {
    var t := n + c + tag;
    var body := t[12..];
    assert t[..12] == n && body == c + tag;
    assert body[..|body| - 16] == c && body[|body| - 16..] == tag;
  }

  lemma ShortAwsTicketsAreRefused(a: Aead, k: Key, ticket: ByteString)
    requires |ticket| < 28
    ensures OpenAwsTicket(a, k, ticket) == None
  {
  }

  lemma AwsTicketLayout(a: Aead, k: Key, n: Nonce, plain: ByteString, other: Key)
    requires LawfulAead(a) && SealAwsTicket(a, k, n, plain).Some?
    ensures var t := SealAwsTicket(a, k, n, plain).value;
      && |t| == |plain| + 28 && t[..12] == n
      && OpenAwsTicket(a, other, t) == a.decrypt(other, n, [], a.encrypt(k, n, [], plain).value)
  {
    var c := a.encrypt(k, n, [], plain).value;
    var t := SealAwsTicket(a, k, n, plain).value;
    var body := t[NONCE_LEN..];
    assert body == c.ciphertext + c.tag;
    assert body[..|body| - TAG_LEN] == c.ciphertext && body[|body| - TAG_LEN..] == c.tag;
    assert t[..NONCE_LEN] == n;
  }

  lemma AwsSealerLaws(a: Aead, keys: seq<Key>)
    requires LawfulAead(a) && SeparatingAead(a, keys)
    ensures Lawful(AwsSealer(a)) && Separates(AwsSealer(a), keys)
  {
    var s := AwsSealer(a);
    forall k: Key, n: Nonce, p: ByteString | s.seal(k, n, p).Some?
      ensures s.open(k, s.seal(k, n, p).value) == Some(p)
    {
      AwsTicketLayout(a, k, n, p, k);
    }
    forall i, j, n: Nonce, p: ByteString |
      0 <= i < |keys| && 0 <= j < |keys| && i != j && s.seal(keys[i], n, p).Some?
      ensures s.open(keys[j], s.seal(keys[i], n, p).value) == None
    {
      AwsTicketLayout(a, keys[i], n, p, keys[j]);
    }
  }

  method EncryptTicket(a: Aead, k: Key, random: Option<Nonce>, plain: ByteString) returns (r: Option<ByteString>)
    requires LawfulAead(a)
    ensures r == if random.None? then None else SealAwsTicket(a, k, random.value, plain)
    ensures r.Some? ==> |r.value| == |plain| + NONCE_LEN + TAG_LEN && OpenAwsTicket(a, k, r.value) == Some(plain)
  {
    if random.None? {
      return None;
    }
    var sealed := a.encrypt(k, random.value, [], plain);
    if sealed.None? {
      return None;
    }
    var ct := sealed.value.ciphertext;
    ct := ct + sealed.value.tag;
    var out := random.value;
    out := out + ct;
    AwsTicketLayout(a, k, random.value, plain, k);
    return Some(out);
  }

  /** Every slice is in range whatever the ticket bytes are. */
  method DecryptTicket(a: Aead, k: Key, ticket: ByteString) returns (r: Option<ByteString>)
    ensures r == OpenAwsTicket(a, k, ticket)
    ensures |ticket| < 28 ==> r == None
    ensures |ticket| >= 28 ==>
            r == a.decrypt(k, ticket[..12], [], Sealed(ticket[12..|ticket| - 16], ticket[|ticket| - 16..]))
  {
    if |ticket| < NONCE_LEN + TAG_LEN {
      return None;
    }
    var nonce := ticket[..NONCE_LEN];
    var ct := ticket[NONCE_LEN..];
    assert ct[..|ct| - TAG_LEN] == ticket[12..|ticket| - 16] && ct[|ct| - TAG_LEN..] == ticket[|ticket| - 16..];
    r := a.decrypt(k, nonce, [], Sealed(ct[..|ct| - TAG_LEN], ct[|ct| - TAG_LEN..]));
  }

  // ── Timed runs ────────────────────────────────────────────────────────────

  /** The events of a run in the order they take the state lock, each at its
      time: rotations by the ticker, or a request that seals or opens. */
  datatype Event = Rotation(at: nat, newKey: Key) | Request(at: nat)

  function RotationsBefore(es: seq<Event>, n: nat): seq<Option<Key>>
    requires n <= |es|
  {
    if n == 0 then []
    else RotationsBefore(es, n - 1) + if es[n - 1].Rotation? then [Some(es[n - 1].newKey)] else []
  }

  /** Every rotation succeeds and is on time: at any event, the rotations done so
      far are those whose tick has passed. A tick and a request at the very same
      instant may take the lock in either order. */
  ghost predicate OnTime(es: seq<Event>, interval: nat) {
    forall i :: 0 <= i < |es| ==> Punctual(es[i], |RotationsBefore(es, i)|, interval)
  }

  ghost predicate Punctual(e: Event, done: nat, interval: nat) {
    && done * interval <= e.at <= (done + 1) * interval
    && (e.Rotation? ==> e.at == (done + 1) * interval)
  }

  /** The event does not fall on the instant of the next tick. */
  ghost predicate BetweenTicks(e: Event, done: nat, interval: nat) {
    e.at < (done + 1) * interval
  }

  lemma {:induction false} RotationsGrow(es: seq<Event>, m: nat, n: nat)
    requires m <= n <= |es|
    ensures RotationsBefore(es, m) <= RotationsBefore(es, n)
  {
    if m == n {
    } else {
      RotationsGrow(es, m, n - 1);
    }
  }

  lemma {:induction false} AllSucceed(es: seq<Event>, n: nat)
    requires n <= |es|
    ensures forall r :: r in RotationsBefore(es, n) ==> r.Some?
  {
    if n == 0 {
    } else {
      AllSucceed(es, n - 1);
    }
  }

  lemma {:induction false} CountOfSuccesses(rs: seq<Option<Key>>)
    requires forall r :: r in rs ==> r.Some?
    ensures Successes(rs) == |rs|
  {
    if rs == [] {
    } else {
      CountOfSuccesses(rs[..|rs| - 1]);
    }
  }

  /** The tick at the event's own instant has already been taken. */
  ghost predicate AtTakenTick(e: Event, done: nat, interval: nat) {
    e.at == done * interval
  }

  /** How many ticks fit between two events, from the time between them. */
  lemma TicksBetween(a: Event, before: nat, b: Event, after: nat, interval: nat)
    requires interval > 0 && before <= after
    requires Punctual(a, before, interval) && Punctual(b, after, interval)
    ensures b.at < a.at + interval ==> after <= before + 1
    ensures b.at == a.at + interval ==>
      (after <= before + 1 <==> BetweenTicks(a, before, interval) || !AtTakenTick(b, after, interval))
    ensures b.at > a.at + 2 * interval ==> after >= before + 2
  {
    var more := after - before;
    assert after * interval == before * interval + more * interval;
    assert (after + 1) * interval == after * interval + interval;
    assert (before + 1) * interval == before * interval + interval;
    if more >= 3 {
      assert more * interval >= 3 * interval;
    } else if more == 2 {
      assert more * interval == 2 * interval;
    } else {
      assert more * interval <= interval;
    }
  }

  lemma TicksInRun(es: seq<Event>, interval: nat, i: nat, j: nat)
    requires interval > 0 && OnTime(es, interval) && i < j < |es|
    ensures var before, after := |RotationsBefore(es, i)|, |RotationsBefore(es, j)|;
      && (es[j].at < es[i].at + interval ==> after <= before + 1)
      && (es[j].at == es[i].at + interval ==>
            (after <= before + 1 <==> BetweenTicks(es[i], before, interval) || !AtTakenTick(es[j], after, interval)))
      && (es[j].at > es[i].at + 2 * interval ==> after >= before + 2)
  {
    RotationsGrow(es, i, j);
    TicksBetween(es[i], |RotationsBefore(es, i)|, es[j], |RotationsBefore(es, j)|, interval);
  }

  /** The ticket opens to `plain` under the key in use at event `i`, and no key
      that is generated between `i` and `j` opens it by accident. */
  ghost predicate SealedAt(
    s: Sealer, first: Key, es: seq<Event>, i: nat, j: nat, ticket: ByteString, plain: ByteString)
    requires i <= j <= |es|
  {
    && s.open(RingAfter(first, RotationsBefore(es, i)).current, ticket) == Some(plain)
    && NewerKeysRefuse(s, Generated(first, RotationsBefore(es, j)), |RotationsBefore(es, i)|, ticket)
  }

  function AnswerAt(s: Sealer, first: Key, es: seq<Event>, j: nat, ticket: ByteString): Option<ByteString>
    requires j <= |es|
  {
    Open(s, RingAfter(first, RotationsBefore(es, j)), ticket)
  }

  lemma OpensWithinOneTick(
    s: Sealer, first: Key, es: seq<Event>, i: nat, j: nat, ticket: ByteString, plain: ByteString)
    requires i <= j <= |es| && SealedAt(s, first, es, i, j, ticket, plain)
    ensures AnswerAt(s, first, es, j, ticket)
            == if |RotationsBefore(es, j)| <= |RotationsBefore(es, i)| + 1 then Some(plain) else None
  {
    var earlier, all := RotationsBefore(es, i), RotationsBefore(es, j);
    RotationsGrow(es, i, j);
    var later := all[|earlier|..];
    assert all == earlier + later;
    AllSucceed(es, i);
    AllSucceed(es, j);
    assert forall r :: r in later ==> r in all;
    CountOfSuccesses(earlier);
    CountOfSuccesses(later);
    TicketsLiveForOneRotation(s, first, earlier, later, ticket, plain);
  }

  /** A ticket sealed at request `i` and presented at request `j`: it opens to its
      plaintext exactly when at most one tick came in between. That is always so
      within one interval and never so more than two intervals later. After
      exactly one interval it is refused exactly when the sealing request ran at a
      tick's own instant before that tick and the presenting one at the next
      tick's instant after that. */
  lemma TicketsLiveBetweenOneAndTwoIntervals(
    s: Sealer, first: Key, es: seq<Event>, interval: nat, i: nat, j: nat, ticket: ByteString, plain: ByteString)
    requires interval > 0 && OnTime(es, interval) && i < j < |es|
    requires SealedAt(s, first, es, i, j, ticket, plain)
    ensures var before, after := |RotationsBefore(es, i)|, |RotationsBefore(es, j)|;
      var answer := AnswerAt(s, first, es, j, ticket);
      && answer == (if after <= before + 1 then Some(plain) else None)
      && (es[j].at < es[i].at + interval ==> answer == Some(plain))
      && (es[j].at == es[i].at + interval ==>
            (answer == Some(plain) <==> BetweenTicks(es[i], before, interval) || !AtTakenTick(es[j], after, interval)))
      && (es[j].at > es[i].at + 2 * interval ==> answer == None)
  {
    OpensWithinOneTick(s, first, es, i, j, ticket, plain);
    TicksInRun(es, interval, i, j);
  }

  /** Seal at the first tick's instant and before it, present at the second one's
      and after it. */
  function SealedBeforeTick(interval: nat, second: Key, third: Key): seq<Event> {
    [Request(interval), Rotation(interval, second), Rotation(2 * interval, third), Request(2 * interval)]
  }

  lemma SealedBeforeTickRun(interval: nat, second: Key, third: Key)
    ensures var es := SealedBeforeTick(interval, second, third);
      && OnTime(es, interval)
      && RotationsBefore(es, 0) == [] && RotationsBefore(es, 3) == [Some(second), Some(third)]
  {
    var es := SealedBeforeTick(interval, second, third);
    assert RotationsBefore(es, 0) == [] && RotationsBefore(es, 1) == [];
    assert RotationsBefore(es, 2) == [Some(second)];
    assert RotationsBefore(es, 3) == [Some(second), Some(third)];
    hide RotationsBefore;
    assert Punctual(es[0], 0, interval) && Punctual(es[1], 0, interval);
    assert Punctual(es[2], 1, interval) && Punctual(es[3], 2, interval);
  }

  /** For every interval some punctual run refuses a ticket exactly one interval
      after it was sealed. */
  lemma RefusedAfterOneInterval(
    s: Sealer, first: Key, second: Key, third: Key, interval: nat, ticket: ByteString, plain: ByteString)
    returns (es: seq<Event>)
    requires interval > 0 && s.open(first, ticket) == Some(plain)
    requires s.open(second, ticket) == None && s.open(third, ticket) == None
    ensures OnTime(es, interval) && |es| == 4 && es[0].Request? && es[3].Request?
    ensures es[3].at == es[0].at + interval && SealedAt(s, first, es, 0, 3, ticket, plain)
    ensures AnswerAt(s, first, es, 3, ticket) == None
  {
    es := SealedBeforeTick(interval, second, third);
    SealedBeforeTickRun(interval, second, third);
    hide OnTime, RotationsBefore, AnswerAt;
    GeneratedByTwo(first, second, third);
    OpensWithinOneTick(s, first, es, 0, 3, ticket, plain);
  }

  lemma GeneratedByTwo(first: Key, second: Key, third: Key)
    ensures Generated(first, [Some(second)]) == [first, second]
    ensures Generated(first, [Some(second), Some(third)]) == [first, second, third]
  {
    var one: seq<Option<Key>> := [Some(second)];
    var two: seq<Option<Key>> := [Some(second), Some(third)];
    assert one[..0] == [] && two[..1] == one;
  }

  /** Exactly the intervals whose double the advertised lifetime covers. */
  predicate Covered(interval: nat) {
    0 < interval && (interval <= SECOND || (interval % SECOND == 0 && 2 * (interval / SECOND) <= U32_MAX))
  }

  /** For an interval of at most a second, or of whole seconds that fit, a ticket
      never opens more than the advertised lifetime after it was sealed. */
  lemma TicketsNeverOutliveLifetime(
    s: Sealer, first: Key, es: seq<Event>, interval: nat, i: nat, j: nat, ticket: ByteString, plain: ByteString)
    requires Covered(interval) && OnTime(es, interval) && i < j < |es|
    requires SealedAt(s, first, es, i, j, ticket, plain)
    requires es[j].at > es[i].at + LifetimeSecs(interval) * SECOND
    ensures AnswerAt(s, first, es, j, ticket) == None
  {
    LifetimeCoversTwoIntervals(interval);
    TicketsLiveBetweenOneAndTwoIntervals(s, first, es, interval, i, j, ticket, plain);
  }

  /** Every other interval has a punctual run in which a ticket still opens later
      than the advertised lifetime. */
  lemma TicketOutlivesOtherLifetimes(
    s: Sealer, first: Key, second: Key, interval: nat, ticket: ByteString, plain: ByteString)
    returns (es: seq<Event>)
    requires interval > 0 && !Covered(interval)
    requires s.open(first, ticket) == Some(plain) && s.open(second, ticket) == None
    ensures OnTime(es, interval) && |es| == 3 && es[0].Request? && es[2].Request?
    ensures es[2].at > es[0].at + LifetimeSecs(interval) * SECOND
    ensures SealedAt(s, first, es, 0, 2, ticket, plain) && AnswerAt(s, first, es, 2, ticket) == Some(plain)
  {
    es := [Request(0), Rotation(interval, second), Request(2 * interval)];
    assert RotationsBefore(es, 0) == [] && RotationsBefore(es, 1) == [];
    assert RotationsBefore(es, 2) == [Some(second)];
    assert Punctual(es[0], 0, interval) && Punctual(es[1], 0, interval) && Punctual(es[2], 1, interval);
    LifetimeCoversTwoIntervals(interval);
    GeneratedByTwo(first, second, second);
    OpensWithinOneTick(s, first, es, 0, 2, ticket, plain);
  }

  /** The timed results hold of the tickets this module seals: all they need of
      the cipher is that it inverts itself and that no newer key accepts the one
      ciphertext. */
  lemma AwsTicketIsSealedAt(a: Aead, first: Key, es: seq<Event>, i: nat, j: nat, n: Nonce, plain: ByteString)
    requires i <= j <= |es| && LawfulAead(a)
    requires SealAwsTicket(a, RingAfter(first, RotationsBefore(es, i)).current, n, plain).Some?
    requires NewerKeysReject(a, Generated(first, RotationsBefore(es, j)), |RotationsBefore(es, i)|, n, [],
                             a.encrypt(RingAfter(first, RotationsBefore(es, i)).current, n, [], plain).value)
    ensures SealedAt(AwsSealer(a), first, es, i, j,
                     SealAwsTicket(a, RingAfter(first, RotationsBefore(es, i)).current, n, plain).value, plain)
  {
    var k, keys := RingAfter(first, RotationsBefore(es, i)).current, Generated(first, RotationsBefore(es, j));
    var ticket := SealAwsTicket(a, k, n, plain).value;
    AwsTicketLayout(a, k, n, plain, k);
    forall h | |RotationsBefore(es, i)| < h < |keys| ensures AwsSealer(a).open(keys[h], ticket) == None {
      AwsTicketLayout(a, k, n, plain, keys[h]);
    }
  }

  /** So a ticket of this module is refused once it is older than its lifetime. */
  lemma AwsTicketsNeverOutliveLifetime(
    a: Aead, first: Key, es: seq<Event>, interval: nat, i: nat, j: nat, n: Nonce, plain: ByteString)
    requires Covered(interval) && OnTime(es, interval) && i < j < |es| && LawfulAead(a)
    requires SealAwsTicket(a, RingAfter(first, RotationsBefore(es, i)).current, n, plain).Some?
    requires NewerKeysReject(a, Generated(first, RotationsBefore(es, j)), |RotationsBefore(es, i)|, n, [],
                             a.encrypt(RingAfter(first, RotationsBefore(es, i)).current, n, [], plain).value)
    ensures var ticket := SealAwsTicket(a, RingAfter(first, RotationsBefore(es, i)).current, n, plain).value;
      && (es[j].at < es[i].at + interval ==> AnswerAt(AwsSealer(a), first, es, j, ticket) == Some(plain))
      && (es[j].at > es[i].at + LifetimeSecs(interval) * SECOND ==> AnswerAt(AwsSealer(a), first, es, j, ticket) == None)
  {
    var ticket := SealAwsTicket(a, RingAfter(first, RotationsBefore(es, i)).current, n, plain).value;
    AwsTicketIsSealedAt(a, first, es, i, j, n, plain);
    hide SealAwsTicket, AwsSealer, AnswerAt, OnTime, SealedAt, LifetimeSecs;
    TicketsLiveBetweenOneAndTwoIntervals(AwsSealer(a), first, es, interval, i, j, ticket, plain);
    if es[j].at > es[i].at + LifetimeSecs(interval) * SECOND {
      TicketsNeverOutliveLifetime(AwsSealer(a), first, es, interval, i, j, ticket, plain);
    }
  }

  // ── The rotating state ────────────────────────────────────────────────────

  class RotatorState {
    var currentKey: Key
    var previousKey: Option<Key>
    var generation: nat
    ghost const first: Key
    ghost var rotations: seq<Option<Key>>

    /** The generation counts the successful rotations, up to 64 bits. */
    ghost predicate Valid()
      reads this
    {
      && Ring(currentKey, previousKey) == RingAfter(first, rotations)
      && generation == Min(Successes(rotations), U64_MAX)
    }

    constructor (key: Key)
      ensures Valid() && first == key && rotations == [] && generation == 0
    {
      currentKey, previousKey, generation := key, None, 0;
      first, rotations := key, [];
    }

    method RotateKeys(newKey: Option<Key>) returns (ok: bool)
      requires Valid()
      modifies this
      ensures Valid() && rotations == old(rotations) + [newKey] && ok == newKey.Some?
      ensures ok ==> previousKey == Some(old(currentKey)) && currentKey == newKey.value
      ensures !ok ==> previousKey == old(previousKey) && currentKey == old(currentKey)
    {
      rotations := rotations + [newKey];
      assert rotations[..|rotations| - 1] == old(rotations);
      if newKey.None? {
        return false;
      }
      previousKey := Some(currentKey);
      currentKey := newKey.value;
      generation := Min(generation + 1, U64_MAX);
      return true;
    }

    method Decrypt(a: Aead, ticket: ByteString) returns (r: Option<ByteString>)
      requires Valid()
      ensures r == Open(AwsSealer(a), RingAfter(first, rotations), ticket)
      ensures Generated(first, rotations) != []
      ensures forall plain :: r == Some(plain) <==>
                              OpenedByNewest(AwsSealer(a), Generated(first, rotations), ticket, plain)
    {
      OnlyNewestKeysOpen(AwsSealer(a), first, rotations, ticket);
      r := DecryptTicket(a, currentKey, ticket);
      if r.None? && previousKey.Some? {
        r := DecryptTicket(a, previousKey.value, ticket);
      }
    }
  }

  /** The background task over some ticks, with what the random generator answers
      at each: failures are ignored and the old keys stay. */
  method RotateOnTicks(state: RotatorState, answers: seq<Option<Key>>)
    requires state.Valid()
    modifies state
    ensures state.Valid() && state.rotations == old(state.rotations) + answers
    ensures state.generation == Min(old(state.generation) + Successes(answers), U64_MAX)
  {
    for i := 0 to |answers|
      invariant state.Valid() && state.rotations == old(state.rotations) + answers[..i]
    {
      var _ := state.RotateKeys(answers[i]);
      assert answers[..i + 1] == answers[..i] + [answers[i]];
    }
    assert answers[..|answers|] == answers;
    GeneratedGrows(state.first, old(state.rotations), answers);
  }
}
