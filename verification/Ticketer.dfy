/** `OxiTicketer`: the ticket wire format over an authenticated cipher and the
    key-rotating object that produces and opens tickets.

      version (1) || nonce (12) || ciphertext (n) || tag (16) */
module Ticketers {
  import opened Bytes
  import opened KeyRings

  const TAG_LEN := 16
  const VERSION_BYTE: Byte := 0x01
  const OVERHEAD := 1 + NONCE_LEN + TAG_LEN

  /** "oxitls-ticket-v1" in ASCII. */
  const AAD: ByteString :=
    [0x6F, 0x78, 0x69, 0x74, 0x6C, 0x73, 0x2D, 0x74, 0x69, 0x63, 0x6B, 0x65, 0x74, 0x2D, 0x76, 0x31]

  datatype Sealed = Sealed(ciphertext: ByteString, tag: ByteString)

  /** An authenticated cipher with a detached tag; it may refuse to encrypt. */
  datatype Aead = Aead(
    encrypt: (Key, Nonce, ByteString, ByteString) -> Option<Sealed>,
    decrypt: (Key, Nonce, ByteString, Sealed) -> Option<ByteString>)

  ghost predicate LawfulAead(a: Aead) {
    forall k: Key, n: Nonce, aad: ByteString, p: ByteString ::
      a.encrypt(k, n, aad, p).Some? ==>
        var c := a.encrypt(k, n, aad, p).value;
        |c.ciphertext| == |p| && |c.tag| == TAG_LEN && a.decrypt(k, n, aad, c) == Some(p)
  }

  ghost predicate SeparatingAead(a: Aead, keys: seq<Key>) {
    forall i, j, n: Nonce, aad: ByteString, p: ByteString ::
      0 <= i < |keys| && 0 <= j < |keys| && i != j && a.encrypt(keys[i], n, aad, p).Some? ==>
        a.decrypt(keys[j], n, aad, a.encrypt(keys[i], n, aad, p).value) == None
  }

  /** None of the keys generated after key `g` accepts this one ciphertext. */
  ghost predicate NewerKeysReject(a: Aead, keys: seq<Key>, g: nat, n: Nonce, aad: ByteString, c: Sealed) {
    forall j :: g < j < |keys| ==> a.decrypt(keys[j], n, aad, c) == None
  }

  function SealTicket(a: Aead, k: Key, n: Nonce, plain: ByteString): Option<ByteString> {
    match a.encrypt(k, n, AAD, plain)
    case None => None
    case Some(c) => Some([VERSION_BYTE] + n + c.ciphertext + c.tag)
  }

  function OpenTicket(a: Aead, k: Key, ticket: ByteString): Option<ByteString> {
    if |ticket| < OVERHEAD || ticket[0] != VERSION_BYTE then None
    else
      var body := ticket[1 + NONCE_LEN..];
      a.decrypt(k, ticket[1..1 + NONCE_LEN], AAD, Sealed(body[..|body| - TAG_LEN], body[|body| - TAG_LEN..]))
  }

  function OxiSealer(a: Aead): Sealer {
    Sealer((k: Key, n: Nonce, p: ByteString) => SealTicket(a, k, n, p),
           (k: Key, t: ByteString) => OpenTicket(a, k, t))
  }

  /** Any string of 29 bytes or more is taken apart at the same places, and only
      under version 1 does the cipher see the parts. Anything shorter is refused. */
  lemma OpeningAnyBytes(a: Aead, k: Key, version: Byte, n: Nonce, c: ByteString, tag: ByteString)
    requires |tag| == 16
    ensures OpenTicket(a, k, [version] + n + c + tag) ==
            if version == 0x01 then a.decrypt(k, n, Ascii("oxitls-ticket-v1"), Sealed(c, tag)) else None
  {
    var t := [version] + n + c + tag;
    var body := t[13..];
    assert t[1..13] == n && body == c + tag;
    assert body[..|body| - 16] == c && body[|body| - 16..] == tag;
    AadIsAscii();
  }

  lemma ShortTicketsAreRefused(a: Aead, k: Key, ticket: ByteString)
    requires |ticket| < 29
    ensures OpenTicket(a, k, ticket) == None
  {
  }

  lemma AadIsAscii()
    ensures AAD == Ascii("oxitls-ticket-v1")
  {
  }

  /** Cutting a sealed ticket gives back exactly the parts it was built from. */
  lemma TicketLayout(a: Aead, k: Key, n: Nonce, plain: ByteString, other: Key)
    requires LawfulAead(a) && SealTicket(a, k, n, plain).Some?
    ensures var t := SealTicket(a, k, n, plain).value;
      && |t| == |plain| + 29
      && t[0] == 0x01 && t[1..13] == n
      && OpenTicket(a, other, t) == a.decrypt(other, n, AAD, a.encrypt(k, n, AAD, plain).value)
  {
    var c := a.encrypt(k, n, AAD, plain).value;
    var t := SealTicket(a, k, n, plain).value;
    var body := t[1 + NONCE_LEN..];
    assert body == c.ciphertext + c.tag;
    assert body[..|body| - TAG_LEN] == c.ciphertext && body[|body| - TAG_LEN..] == c.tag;
    assert t[1..1 + NONCE_LEN] == n;
  }

  /** The wire format carries the laws of the cipher over to whole tickets. */
  lemma OxiSealerLaws(a: Aead, keys: seq<Key>)
    requires LawfulAead(a) && SeparatingAead(a, keys)
    ensures Lawful(OxiSealer(a)) && Separates(OxiSealer(a), keys)
  {
    var s := OxiSealer(a);
    forall k: Key, n: Nonce, p: ByteString | s.seal(k, n, p).Some?
      ensures s.open(k, s.seal(k, n, p).value) == Some(p)
    {
      TicketLayout(a, k, n, p, k);
    }
    forall i, j, n: Nonce, p: ByteString |
      0 <= i < |keys| && 0 <= j < |keys| && i != j && s.seal(keys[i], n, p).Some?
      ensures s.open(keys[j], s.seal(keys[i], n, p).value) == None
    {
      TicketLayout(a, keys[i], n, p, keys[j]);
    }
  }

  /** What newer keys do with the ciphertext they do with the ticket. */
  lemma OxiTicketRefusal(a: Aead, k: Key, n: Nonce, plain: ByteString, keys: seq<Key>, g: nat)
    requires LawfulAead(a) && SealTicket(a, k, n, plain).Some?
    requires NewerKeysReject(a, keys, g, n, AAD, a.encrypt(k, n, AAD, plain).value)
    ensures OpenTicket(a, k, SealTicket(a, k, n, plain).value) == Some(plain)
    ensures NewerKeysRefuse(OxiSealer(a), keys, g, SealTicket(a, k, n, plain).value)
  {
    TicketLayout(a, k, n, plain, k);
    forall j | g < j < |keys| ensures OxiSealer(a).open(keys[j], SealTicket(a, k, n, plain).value) == None {
      TicketLayout(a, k, n, plain, keys[j]);
    }
  }

  /** The laws of an ideal cipher are met, for instance, by one that tags with the
      first half of its key, on any keys whose first halves differ. */
  lemma LawsAreSatisfiable(keys: seq<Key>) returns (a: Aead)
    requires forall i, j :: 0 <= i < j < |keys| ==> keys[i][..TAG_LEN] != keys[j][..TAG_LEN]
    ensures LawfulAead(a) && SeparatingAead(a, keys)
    ensures forall k: Key, n: Nonce, aad: ByteString, p: ByteString :: a.encrypt(k, n, aad, p).Some?
  {
    a := Aead((k: Key, n: Nonce, aad: ByteString, p: ByteString) => Some(Sealed(p, k[..TAG_LEN])),
              (k: Key, n: Nonce, aad: ByteString, c: Sealed) =>
                if c.tag == k[..TAG_LEN] then Some(c.ciphertext) else None);
  }

  // ── The byte-level routines ───────────────────────────────────────────────

  /** Builds the ticket in one buffer, encrypting the plaintext part in place:
      the bytes before it are not touched. `random` is the nonce, if the
      generator delivered one. */
  method EncryptWithKey(a: Aead, k: Key, random: Option<Nonce>, plain: ByteString) returns (r: Option<ByteString>)
    requires LawfulAead(a)
    ensures r == if random.None? then None else SealTicket(a, k, random.value, plain)
    ensures r.Some? ==> |r.value| == |plain| + OVERHEAD && OpenTicket(a, k, r.value) == Some(plain)
  {
    if random.None? {
      return None;
    }
    var nonce := random.value;
    var out := [VERSION_BYTE];
    out := out + nonce;
    out := out + plain;
    var start := 1 + NONCE_LEN;
    var end := start + |plain|;
    assert out[start..end] == plain;
    var c := a.encrypt(k, nonce, AAD, out[start..end]);
    if c.None? {
      return None;
    }
    out := out[..start] + c.value.ciphertext + out[end..];
    assert out == [VERSION_BYTE] + nonce + c.value.ciphertext;
    out := out + c.value.tag;
    TicketLayout(a, k, nonce, plain, k);
    return Some(out);
  }

  /** Every slice is in range whatever the ticket bytes are. */
  method DecryptWithKey(a: Aead, k: Key, ticket: ByteString) returns (r: Option<ByteString>)
    ensures r == OpenTicket(a, k, ticket)
    ensures |ticket| < 29 || ticket[0] != 0x01 ==> r == None
    ensures |ticket| >= 29 && ticket[0] == 0x01 ==>
            r == a.decrypt(k, ticket[1..13], Ascii("oxitls-ticket-v1"), Sealed(ticket[13..|ticket| - 16], ticket[|ticket| - 16..]))
  {
    AadIsAscii();
    if |ticket| < 1 + NONCE_LEN + TAG_LEN {
      return None;
    }
    if ticket[0] != VERSION_BYTE {
      return None;
    }
    var nonce := ticket[1..1 + NONCE_LEN];
    var body := ticket[1 + NONCE_LEN..];
    var plainLen := |body| - TAG_LEN;
    var tag := body[plainLen..];
    var buf := body[..plainLen];
    assert buf == ticket[13..|ticket| - 16] && tag == ticket[|ticket| - 16..];
    r := a.decrypt(k, nonce, AAD, Sealed(buf, tag));
  }

  // ── The ticketer object ───────────────────────────────────────────────────

  class OxiTicketer {
    var current: Key
    var previous: Option<Key>
    const lifetimeSecs: nat
    const cipher: Aead
    ghost const first: Key
    ghost var rotations: seq<Option<Key>>

    ghost predicate Valid()
      reads this
    {
      LawfulAead(cipher) && Ring(current, previous) == RingAfter(first, rotations)
    }

    constructor (cipher: Aead, key: Key, lifetimeSecs: nat)
      requires LawfulAead(cipher)
      ensures Valid() && this.cipher == cipher && first == key && rotations == []
      ensures this.lifetimeSecs == lifetimeSecs
    {
      this.cipher, this.lifetimeSecs := cipher, lifetimeSecs;
      current, previous, first, rotations := key, None, key, [];
    }

    /** Promotes the current key; a failing generator changes nothing. */
    method RotateKeys(newKey: Option<Key>) returns (ok: bool)
      requires Valid()
      modifies this
      ensures Valid() && rotations == old(rotations) + [newKey] && ok == newKey.Some?
      ensures ok ==> previous == Some(old(current)) && current == newKey.value
      ensures !ok ==> previous == old(previous) && current == old(current)
    {
      rotations := rotations + [newKey];
      assert rotations[..|rotations| - 1] == old(rotations);
      if newKey.None? {
        return false;
      }
      var oldCurrent := current;
      current := newKey.value;
      previous := Some(oldCurrent);
      return true;
    }

    method Encrypt(random: Option<Nonce>, plain: ByteString) returns (r: Option<ByteString>)
      requires Valid()
      ensures r == if random.None? then None else OxiSealer(cipher).seal(current, random.value, plain)
    {
      r := EncryptWithKey(cipher, current, random, plain);
    }

    /** Tries the current key first, then the previous one. */
    method Decrypt(ticket: ByteString) returns (r: Option<ByteString>)
      requires Valid()
      ensures r == Open(OxiSealer(cipher), RingAfter(first, rotations), ticket)
      ensures Generated(first, rotations) != []
      ensures forall plain :: r == Some(plain) <==>
                              OpenedByNewest(OxiSealer(cipher), Generated(first, rotations), ticket, plain)
    {
      OnlyNewestKeysOpen(OxiSealer(cipher), first, rotations, ticket);
      r := DecryptWithKey(cipher, current, ticket);
      if r.None? && previous.Some? {
        r := DecryptWithKey(cipher, previous.value, ticket);
      }
    }
  }
}
