/** Key rotation shared by both ticketers: seal with the current key, open with
    the current key or else the previous one, over an abstract sealer. */
module KeyRings {
  import opened Bytes

  const KEY_LEN := 32
  const NONCE_LEN := 12

  type Key = k: ByteString | |k| == KEY_LEN witness seq(32, _ => 0)

  type Nonce = n: ByteString | |n| == NONCE_LEN witness seq(12, _ => 0)

  /** How one key turns plaintext into ticket bytes and back. Sealing may fail. */
  datatype Sealer = Sealer(
    seal: (Key, Nonce, ByteString) -> Option<ByteString>,
    open: (Key, ByteString) -> Option<ByteString>)

  ghost predicate Lawful(s: Sealer) {
    forall k: Key, n: Nonce, p: ByteString ::
      s.seal(k, n, p).Some? ==> s.open(k, s.seal(k, n, p).value) == Some(p)
  }

  /** None of the keys generated after key `g` opens this one ticket. */
  ghost predicate NewerKeysRefuse(s: Sealer, keys: seq<Key>, g: nat, ticket: ByteString) {
    forall j :: g < j < |keys| ==> s.open(keys[j], ticket) == None
  }

  /** An ideal sealer: no key of the list opens anything another one sealed. A
      cipher with a polynomial tag such as AES-GCM does not meet this, since for
      two keys some plaintext sealed under one opens under the other, so the
      results about runs ask for the weaker fact about the ticket at hand. */
  ghost predicate Separates(s: Sealer, keys: seq<Key>) {
    forall i, j, n: Nonce, p: ByteString ::
      0 <= i < |keys| && 0 <= j < |keys| && i != j && s.seal(keys[i], n, p).Some? ==>
        s.open(keys[j], s.seal(keys[i], n, p).value) == None
  }

  lemma SeparationRefusesEveryTicket(s: Sealer, keys: seq<Key>, g: nat, n: Nonce, plain: ByteString)
    requires Separates(s, keys) && g < |keys| && s.seal(keys[g], n, plain).Some?
    ensures NewerKeysRefuse(s, keys, g, s.seal(keys[g], n, plain).value)
  {
  }

  datatype Ring = Ring(current: Key, previous: Option<Key>)

  /** A rotation attempt with what the random generator answered. */
  function Rotate(r: Ring, newKey: Option<Key>): Ring {
    match newKey
    case None => r
    case Some(k) => Ring(k, Some(r.current))
  }

  function Open(s: Sealer, r: Ring, ticket: ByteString): Option<ByteString> {
    match s.open(r.current, ticket)
    case Some(p) => Some(p)
    case None => if r.previous.Some? then s.open(r.previous.value, ticket) else None
  }

  // ── Runs ──────────────────────────────────────────────────────────────────

  function RingAfter(first: Key, rotations: seq<Option<Key>>): Ring {
    if rotations == [] then Ring(first, None)
    else Rotate(RingAfter(first, rotations[..|rotations| - 1]), rotations[|rotations| - 1])
  }

  /** The keys generated so far, oldest first. */
  function Generated(first: Key, rotations: seq<Option<Key>>): seq<Key> {
    if rotations == [] then [first] else
      var r := rotations[|rotations| - 1];
      Generated(first, rotations[..|rotations| - 1]) + if r.Some? then [r.value] else []
  }

  /** The number of rotations that succeeded. */
  function Successes(rotations: seq<Option<Key>>): nat {
    if rotations == [] then 0
    else Successes(rotations[..|rotations| - 1]) + if rotations[|rotations| - 1].Some? then 1 else 0
  }

  /** The ring holds exactly the two newest keys of the run. */
  lemma {:induction false} RingHoldsNewestKeys(first: Key, rotations: seq<Option<Key>>)
    ensures var keys, g := Generated(first, rotations), Successes(rotations);
      && |keys| == g + 1
      && RingAfter(first, rotations) == Ring(keys[g], if g == 0 then None else Some(keys[g - 1]))
  {
    if rotations == [] {
    } else {
      RingHoldsNewestKeys(first, rotations[..|rotations| - 1]);
    }
  }

  /** Of keys in the order of generation, the newest opens the ticket, or it
      refuses it and the one before opens it. */
  ghost predicate OpenedByNewest(s: Sealer, keys: seq<Key>, ticket: ByteString, plain: ByteString)
    requires keys != []
  {
    var newest := keys[|keys| - 1];
    || s.open(newest, ticket) == Some(plain)
    || (s.open(newest, ticket) == None && |keys| > 1 && s.open(keys[|keys| - 2], ticket) == Some(plain))
  }

  /** After any rotations a ticket, sealed or forged, is answered exactly as the
      two newest keys of the run do, and refused when none of its keys opens it. */
  lemma OnlyNewestKeysOpen(s: Sealer, first: Key, rotations: seq<Option<Key>>, ticket: ByteString)
    ensures Generated(first, rotations) != []
    ensures forall plain :: Open(s, RingAfter(first, rotations), ticket) == Some(plain) <==>
                            OpenedByNewest(s, Generated(first, rotations), ticket, plain)
    ensures (forall k :: k in Generated(first, rotations) ==> s.open(k, ticket) == None) ==>
            Open(s, RingAfter(first, rotations), ticket) == None
  {
    RingHoldsNewestKeys(first, rotations);
    hide RingAfter, Generated, Successes;
  }

  lemma {:induction false} GeneratedGrows(first: Key, earlier: seq<Option<Key>>, later: seq<Option<Key>>)
    ensures Generated(first, earlier) <= Generated(first, earlier + later)
    ensures Successes(earlier + later) == Successes(earlier) + Successes(later)
  {
    if later == [] {
      assert earlier + later == earlier;
    } else {
      var init := later[..|later| - 1];
      assert (earlier + later)[..|earlier + later| - 1] == earlier + init;
      GeneratedGrows(first, earlier, init);
    }
  }

  /** A ticket that opens under the current key at some point of a run, and that no
      later key opens by accident, opens to its exact plaintext while at most one
      more rotation has succeeded and is refused from the second one on. Rotations
      that fail do not count. */
  lemma TicketsLiveForOneRotation(
    s: Sealer, first: Key, earlier: seq<Option<Key>>, later: seq<Option<Key>>, ticket: ByteString, plain: ByteString)
    requires s.open(RingAfter(first, earlier).current, ticket) == Some(plain)
    requires NewerKeysRefuse(s, Generated(first, earlier + later), Successes(earlier), ticket)
    ensures Open(s, RingAfter(first, earlier + later), ticket) == if Successes(later) <= 1 then Some(plain) else None
  {
    hide RingAfter, Generated, Successes;
    RingHoldsNewestKeys(first, earlier);
    RingHoldsNewestKeys(first, earlier + later);
    GeneratedGrows(first, earlier, later);
    var keys, g := Generated(first, earlier + later), Successes(earlier);
    assert RingAfter(first, earlier).current == keys[g];
    var h := Successes(earlier + later);
    assert h != g ==> s.open(keys[h], ticket) == None;
    assert h > g + 1 ==> s.open(keys[h - 1], ticket) == None;
  }

  /** For an ideal sealer that is so of every ticket it seals. */
  lemma SeparatedTicketsLiveForOneRotation(
    s: Sealer, first: Key, earlier: seq<Option<Key>>, later: seq<Option<Key>>, n: Nonce, plain: ByteString)
    requires Lawful(s) && Separates(s, Generated(first, earlier + later))
    requires s.seal(RingAfter(first, earlier).current, n, plain).Some?
    ensures Open(s, RingAfter(first, earlier + later), s.seal(RingAfter(first, earlier).current, n, plain).value)
            == if Successes(later) <= 1 then Some(plain) else None
  {
    var k := RingAfter(first, earlier).current;
    var keys, g := Generated(first, earlier + later), Successes(earlier);
    RingHoldsNewestKeys(first, earlier);
    RingHoldsNewestKeys(first, earlier + later);
    GeneratedGrows(first, earlier, later);
    assert keys[g] == k;
    SeparationRefusesEveryTicket(s, keys, g, n, plain);
    TicketsLiveForOneRotation(s, first, earlier, later, s.seal(k, n, plain).value, plain);
  }
}
