/** QUIC header protection (section 5.4.1 of RFC 9001): a five-byte mask hides
    part of the first byte and the packet number, whose length is written in the
    very bits of the first byte that get hidden. */
module HeaderProtection {
  import opened Bytes

  const MASK_LEN := 5
  const MAX_PN_LEN := 4

  type Mask = m: seq<bv8> | |m| == MASK_LEN witness [0, 0, 0, 0, 0]

  datatype Header = Header(first: bv8, packetNumber: seq<bv8>)

  datatype QuicError = PacketNumberTooLong | MaskFailed

  /** The bits of the first byte that are masked: four for a long header, five
      for a short one. */
  function MaskedBits(first: bv8): bv8 {
    if first & 0x80 == 0x80 then 0x0f else 0x1f
  }

  function Flip(first: bv8, mask: Mask): bv8 {
    first ^ (mask[0] & MaskedBits(first))
  }

  function PacketNumberLength(plain: bv8): nat {
    (plain & 0x03) as nat + 1
  }

  function Xor(a: bv8, b: bv8): bv8 {
    a ^ b
  }

  function XorPrefix(bytes: seq<bv8>, mask: Mask, n: nat): (r: seq<bv8>)
    ensures |r| == |bytes|
  {
    seq(|bytes|, i requires 0 <= i < |bytes| => if i < n && i < MAX_PN_LEN then Xor(bytes[i], mask[1 + i]) else bytes[i])
  }

  /** `masked` tells whether the header comes in protected. */
  function Apply(mask: Mask, h: Header, masked: bool): Header {
    var plain := if masked then Flip(h.first, mask) else h.first;
    Header(Flip(h.first, mask), XorPrefix(h.packetNumber, mask, PacketNumberLength(plain)))
  }

  lemma FlipTwice(first: bv8, mask: Mask)
    ensures Flip(Flip(first, mask), mask) == first
    ensures MaskedBits(Flip(first, mask)) == MaskedBits(first)
  {
    var m := mask[0];
    assert (first ^ (m & 0x0f)) & 0x80 == first & 0x80;
    assert (first ^ (m & 0x1f)) & 0x80 == first & 0x80;
    assert (first ^ (m & 0x0f)) ^ (m & 0x0f) == first;
    assert (first ^ (m & 0x1f)) ^ (m & 0x1f) == first;
  }

  lemma XorTwice(bytes: seq<bv8>, mask: Mask, n: nat)
    ensures XorPrefix(XorPrefix(bytes, mask, n), mask, n) == bytes
  {
    hide Xor;
    var once := XorPrefix(bytes, mask, n);
    forall i | 0 <= i < |bytes| ensures XorPrefix(once, mask, n)[i] == bytes[i] {
      if i < n && i < MAX_PN_LEN {
        XorCancels(bytes[i], mask[1 + i]);
      }
    }
  }

  lemma XorCancels(a: bv8, b: bv8)
    ensures Xor(Xor(a, b), b) == a
    ensures Xor(a, b) == a <==> b == 0
  {
  }

  /** Removing protection undoes applying it and the other way round, for every
      mask, first byte and packet-number slice, although each pass works out the
      length from a different first byte. */
  lemma ProtectionIsUndone(mask: Mask, h: Header)
    ensures Apply(mask, Apply(mask, h, false), true) == h
    ensures Apply(mask, Apply(mask, h, true), false) == h
  {
    FlipTwice(h.first, mask);
    XorTwice(h.packetNumber, mask, PacketNumberLength(h.first));
    XorTwice(h.packetNumber, mask, PacketNumberLength(Flip(h.first, mask)));
  }

  /** Exactly the protected bits change: the low four bits of a long header's first
      byte or the low five of a short one's, and as many packet-number bytes as
      the plain first byte's low two bits say, plus one. Nothing past them does. */
  lemma ExactlyTheProtectedBitsChange(mask: Mask, h: Header, masked: bool)
    ensures var out := Apply(mask, h, masked);
      var plain := if masked then out.first else h.first;
      && out.first ^ h.first == mask[0] & (if h.first >= 0x80 then 0x0f else 0x1f)
      && |out.packetNumber| == |h.packetNumber|
      && (forall i :: 0 <= i < |h.packetNumber| && i < MAX_PN_LEN && i <= (plain % 4) as int ==>
            out.packetNumber[i] == Xor(h.packetNumber[i], mask[1 + i]))
      && (forall i :: 0 <= i < |h.packetNumber| && i > (plain % 4) as int ==>
            out.packetNumber[i] == h.packetNumber[i])
  {
    var out := Apply(mask, h, masked);
    var plain := if masked then out.first else h.first;
    FirstByteBits(h.first, mask[0]);
    LowTwoBits(plain);
    hide Xor, PacketNumberLength;
  }

  lemma FirstByteBits(first: bv8, m: bv8)
    ensures (first & 0x80 == 0x80) == (first >= 0x80)
    ensures (first ^ (m & 0x0f)) ^ first == m & 0x0f
    ensures (first ^ (m & 0x1f)) ^ first == m & 0x1f
  {
  }

  lemma LowTwoBits(plain: bv8)
    ensures PacketNumberLength(plain) == (plain % 4) as int + 1
  {
    assert plain & 0x03 == plain % 4;
  }

  /** Masking byte `i` once or twice, by two lengths read, leaves it as it was. */
  ghost predicate KeptByTwo(mask: Mask, a: nat, b: nat, i: nat) {
    i < MAX_PN_LEN && (i < a) != (i < b) ==> mask[1 + i] == 0
  }

  lemma XorByTwoLengths(bytes: seq<bv8>, mask: Mask, a: nat, b: nat)
    ensures XorPrefix(XorPrefix(bytes, mask, a), mask, b) == bytes <==>
            forall i :: 0 <= i < |bytes| ==> KeptByTwo(mask, a, b, i)
  {
    hide Xor;
    var twice := XorPrefix(XorPrefix(bytes, mask, a), mask, b);
    forall i | 0 <= i < |bytes| ensures twice[i] == bytes[i] <==> KeptByTwo(mask, a, b, i) {
      if i < MAX_PN_LEN {
        XorCancels(bytes[i], mask[1 + i]);
      }
    }
  }

  /** The direction matters: protecting twice restores the header exactly when
      every byte between the two lengths read has a zero mask. */
  lemma ProtectingTwiceRestoresExactlyWhen(mask: Mask, h: Header)
    ensures var a, b := PacketNumberLength(h.first), PacketNumberLength(Flip(h.first, mask));
      Apply(mask, Apply(mask, h, false), false) == h <==>
        forall i :: 0 <= i < |h.packetNumber| ==> KeptByTwo(mask, a, b, i)
  {
    FlipTwice(h.first, mask);
    hide Flip, PacketNumberLength, XorPrefix;
    XorByTwoLengths(h.packetNumber, mask, PacketNumberLength(h.first), PacketNumberLength(Flip(h.first, mask)));
  }

  // ── In place ──────────────────────────────────────────────────────────────

  lemma XorPrefixIs(bytes: seq<bv8>, changed: seq<bv8>, mask: Mask, n: nat)
    requires |changed| == |bytes| <= MAX_PN_LEN
    requires forall k :: 0 <= k < |bytes| ==> changed[k] == if k < n then Xor(bytes[k], mask[1 + k]) else bytes[k]
    ensures changed == XorPrefix(bytes, mask, n)
  {
  }

  method XorPacketNumber(mask: Mask, packetNumber: array<bv8>, n: nat)
    requires packetNumber.Length <= MAX_PN_LEN
    modifies packetNumber
    ensures packetNumber[..] == XorPrefix(old(packetNumber[..]), mask, n)
  {
    hide XorPrefix, Xor;
    var i := 0;
    while i < packetNumber.Length && i < n
      invariant i <= packetNumber.Length && i <= n
      invariant forall k :: 0 <= k < i ==> packetNumber[k] == Xor(old(packetNumber[k]), mask[1 + k])
      invariant forall k :: i <= k < packetNumber.Length ==> packetNumber[k] == old(packetNumber[k])
    {
      packetNumber[i] := Xor(packetNumber[i], mask[1 + i]);
      i := i + 1;
    }
    XorPrefixIs(old(packetNumber[..]), packetNumber[..], mask, n);
  }

  /** Both directions leave the same first byte and differ in which one is plain. */
  method SplitFirst(mask: Mask, first: bv8, masked: bool) returns (flipped: bv8, pnLen: nat)
    ensures flipped == Flip(first, mask)
    ensures pnLen == PacketNumberLength(if masked then Flip(first, mask) else first)
  {
    var bits: bv8 := if first & 0x80 == 0x80 then 0x0f else 0x1f;
    var firstPlain := if masked then first ^ (mask[0] & bits) else first;
    pnLen := (firstPlain & 0x03) as nat + 1;
    flipped := first ^ (mask[0] & bits);
  }

  /** The first byte comes back as a result; the slice is changed in place, and
      not at all when the call fails. */
  method XorInPlace(mask: Mask, first: bv8, packetNumber: array<bv8>, masked: bool)
    returns (r: Result<bv8, QuicError>)
    modifies packetNumber
    ensures r.Err? <==> packetNumber.Length > MAX_PN_LEN
    ensures r.Err? ==> r.error == PacketNumberTooLong && packetNumber[..] == old(packetNumber[..])
    ensures r.Ok? ==> Header(r.value, packetNumber[..]) == Apply(mask, Header(first, old(packetNumber[..])), masked)
  {
    if packetNumber.Length > MAX_PN_LEN {
      return Err(PacketNumberTooLong);
    }
    hide XorPrefix, Flip, PacketNumberLength;
    var flipped, pnLen := SplitFirst(mask, first, masked);
    XorPacketNumber(mask, packetNumber, pnLen);
    return Ok(flipped);
  }

  method EncryptInPlace(derive: seq<bv8> -> Option<Mask>, sample: seq<bv8>, first: bv8, packetNumber: array<bv8>)
    returns (r: Result<bv8, QuicError>)
    modifies packetNumber
    ensures r.Ok? <==> derive(sample).Some? && packetNumber.Length <= MAX_PN_LEN
    ensures r.Err? ==> packetNumber[..] == old(packetNumber[..])
    ensures r.Err? ==> r.error == if derive(sample).None? then MaskFailed else PacketNumberTooLong
    ensures r.Ok? ==>
      Header(r.value, packetNumber[..]) == Apply(derive(sample).value, Header(first, old(packetNumber[..])), false)
  {
    var mask := derive(sample);
    if mask.None? {
      return Err(MaskFailed);
    }
    r := XorInPlace(mask.value, first, packetNumber, false);
  }

  method DecryptInPlace(derive: seq<bv8> -> Option<Mask>, sample: seq<bv8>, first: bv8, packetNumber: array<bv8>)
    returns (r: Result<bv8, QuicError>)
    modifies packetNumber
    ensures r.Ok? <==> derive(sample).Some? && packetNumber.Length <= MAX_PN_LEN
    ensures r.Err? ==> packetNumber[..] == old(packetNumber[..])
    ensures r.Err? ==> r.error == if derive(sample).None? then MaskFailed else PacketNumberTooLong
    ensures r.Ok? ==>
      Header(r.value, packetNumber[..]) == Apply(derive(sample).value, Header(first, old(packetNumber[..])), true)
  {
    var mask := derive(sample);
    if mask.None? {
      return Err(MaskFailed);
    }
    r := XorInPlace(mask.value, first, packetNumber, true);
  }
}
