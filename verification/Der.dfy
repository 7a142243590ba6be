/** The hand-written DER encoders for certificate extensions, against a strict
    DER reader (definite, shortest-form lengths of any size). */
module Der {
  import opened Bytes
  import opened BigEndian

  // ── Lengths ───────────────────────────────────────────────────────────────

  function DecodeLength(bs: ByteString): Option<Parsed<nat>> {
    if bs == [] then None
    else if bs[0] < 0x80 then Some(Parsed(bs[0], bs[1..]))
    else
      var k := bs[0] - 0x80;
      if k == 0 || k == 0x7F || |bs| < 1 + k || bs[1] == 0 then None
      else
        var n := Value(bs[1..1 + k]);
        if n < 0x80 then None else Some(Parsed(n, bs[1 + k..]))
  }

  /** What `encode_der_length` appends; the casts keep the low eight bits. */
  function EncodeLength(len: nat): ByteString {
    if len < 0x80 then [len]
    else if len <= 0xFF then [0x81, len]
    else [0x82, (len / 0x100) % 0x100, len % 0x100]
  }

  lemma ShortLengthRoundTrip(len: nat, rest: ByteString)
    requires len <= 0xFF
    ensures DecodeLength(EncodeLength(len) + rest) == Some(Parsed(len, rest))
  {
    var e := EncodeLength(len);
    assert (e + rest)[|e|..] == rest;
    if len >= 0x80 {
      assert (e + rest)[1..2] == [len];
      ValueOfByte(len);
    }
  }

  lemma LowBytes(len: nat)
    ensures (len / 0x100) % 0x100 == (len % 0x1_0000) / 0x100 && len % 0x100 == (len % 0x1_0000) % 0x100
  {
    var q, r := len / 0x100, len % 0x100;
    var h, m := q / 0x100, q % 0x100;
    assert len == 0x1_0000 * h + (0x100 * m + r) && 0x100 * m + r < 0x1_0000;
    assert len % 0x1_0000 == 0x100 * m + r;
  }

  lemma LongLengthRoundTrip(len: nat, rest: ByteString)
    requires len > 0xFF
    ensures var low := len % 0x1_0000;
      DecodeLength(EncodeLength(len) + rest) == if low <= 0xFF then None else Some(Parsed(low, rest))
  {
    var low := len % 0x1_0000;
    LowBytes(len);
    assert EncodeLength(len) == [0x82] + U16(low);
    hide EncodeLength;
    var bs := [0x82] + U16(low) + rest;
    assert bs[1..3] == U16(low) && bs[3..] == rest && bs[1] == low / 0x100;
    ValueOfU16(low);
    hide Value, U16;
  }

  /** The length is read back exactly when it fits sixteen bits. */
  lemma LengthRoundTrip(len: nat, rest: ByteString)
    ensures DecodeLength(EncodeLength(len) + rest) == Some(Parsed(len, rest)) <==> len <= 0xFFFF
    ensures len > 0xFFFF ==> var low := len % 0x1_0000;
            DecodeLength(EncodeLength(len) + rest) == if low <= 0xFF then None else Some(Parsed(low, rest))
  {
    if len <= 0xFF {
      ShortLengthRoundTrip(len, rest);
    } else {
      LongLengthRoundTrip(len, rest);
    }
    hide DecodeLength, EncodeLength;
  }

  /** Whatever its size, a length of 256 or more takes two octets behind 0x82, which
      hold its low sixteen bits. */
  lemma LongLengthOctets(len: nat)
    requires len > 0xFF
    ensures |EncodeLength(len)| == 3 && EncodeLength(len)[0] == 0x82
    ensures Value(EncodeLength(len)[1..]) == len % 0x1_0000
  {
    LowBytes(len);
    assert EncodeLength(len)[1..] == U16(len % 0x1_0000);
    ValueOfU16(len % 0x1_0000);
  }

  /** How many octets a shortest-form length takes is fixed by the length. */
  lemma LengthOctetsAreUnique(a: ByteString, b: ByteString)
    requires DecodeLength(a).Some? && DecodeLength(b).Some?
    requires DecodeLength(a).value.value == DecodeLength(b).value.value
    ensures a[..|a| - |DecodeLength(a).value.rest|] == b[..|b| - |DecodeLength(b).value.rest|]
  {
    if a[0] >= 0x80 && b[0] >= 0x80 {
      StrippedIsUnique(a[1..1 + (a[0] - 0x80)], b[1..1 + (b[0] - 0x80)]);
      assert a[0] == b[0];
      assert a[..1 + (a[0] - 0x80)] == [a[0]] + a[1..1 + (a[0] - 0x80)];
      assert b[..1 + (b[0] - 0x80)] == [b[0]] + b[1..1 + (b[0] - 0x80)];
    }
  }

  /** So the encoder produces the only strict encoding of its length. */
  lemma LengthIsCanonical(bs: ByteString)
    requires DecodeLength(bs).Some? && DecodeLength(bs).value.value <= 0xFFFF
    ensures bs == EncodeLength(DecodeLength(bs).value.value) + DecodeLength(bs).value.rest
  {
    var p := DecodeLength(bs).value;
    var e := EncodeLength(p.value);
    LengthRoundTrip(p.value, []);
    assert e + [] == e;
    LengthOctetsAreUnique(bs, e);
    assert bs == bs[..|bs| - |p.rest|] + p.rest;
  }

  method EncodeDerLength(buf: ByteString, len: nat) returns (out: ByteString)
    ensures out == buf + EncodeLength(len)
  {
    out := buf;
    if len < 0x80 {
      out := out + [len];
    } else if len <= 0xFF {
      out := out + [0x81];
      out := out + [len];
    } else {
      out := out + [0x82];
      out := out + [(len / 0x100) % 0x100];
      out := out + [len % 0x100];
    }
  }

  // ── Tag, length, value ────────────────────────────────────────────────────

  function DecodeTlv(tag: Byte, bs: ByteString): Option<Parsed<ByteString>> {
    if bs == [] || bs[0] != tag then None
    else match DecodeLength(bs[1..])
      case None => None
      case Some(p) =>
        if p.value > |p.rest| then None else Some(Parsed(p.rest[..p.value], p.rest[p.value..]))
  }

  /** One element that is the whole input. */
  function DecodeWhole(tag: Byte, bs: ByteString): Option<ByteString> {
    match DecodeTlv(tag, bs)
    case None => None
    case Some(p) => if p.rest == [] then Some(p.value) else None
  }

  function EncodeTagged(tag: Byte, content: ByteString): ByteString {
    [tag] + EncodeLength(|content|) + content
  }

  lemma TlvRoundTrip(tag: Byte, content: ByteString, rest: ByteString)
    requires |content| <= 0xFFFF
    ensures DecodeTlv(tag, EncodeTagged(tag, content) + rest) == Some(Parsed(content, rest))
  {
    var bs := EncodeTagged(tag, content) + rest;
    assert bs[1..] == EncodeLength(|content|) + (content + rest);
    LengthRoundTrip(|content|, content + rest);
    assert (content + rest)[..|content|] == content && (content + rest)[|content|..] == rest;
  }

  /** An element is read back exactly when its content fits sixteen bits. */
  lemma WholeRoundTrip(tag: Byte, content: ByteString)
    ensures DecodeWhole(tag, EncodeTagged(tag, content)) == if |content| <= 0xFFFF then Some(content) else None
  {
    var bs := EncodeTagged(tag, content);
    if |content| <= 0xFFFF {
      TlvRoundTrip(tag, content, []);
      assert bs + [] == bs;
    } else {
      assert bs[1..] == EncodeLength(|content|) + content;
      LengthRoundTrip(|content|, content);
      if DecodeLength(bs[1..]).Some? {
        var p := DecodeLength(bs[1..]).value;
        assert p.rest == content && p.value < |content|;
      }
    }
  }

  /** An element of any size starts with its tag and ends with its content; what is
      between is the length. */
  lemma TaggedParts(tag: Byte, content: ByteString)
    ensures var e, k := EncodeTagged(tag, content), 1 + |EncodeLength(|content|)|;
      && |e| == k + |content| && e[0] == tag
      && e[1..k] == EncodeLength(|content|) && e[k..] == content
  {
  }

  /** Where an element keeps its content, `k` octets in. Two header octets only
      do for a content below 128 octets. */
  lemma TlvLayout(tag: Byte, bs: ByteString) returns (k: nat)
    requires DecodeTlv(tag, bs).Some?
    ensures var p := DecodeTlv(tag, bs).value;
      && k >= 2 && |bs| == k + |p.value| + |p.rest|
      && bs[k..k + |p.value|] == p.value
      && (k == 2 ==> |p.value| < 0x80)
  {
    var p := DecodeTlv(tag, bs).value;
    var rest := DecodeLength(bs[1..]).value.rest;
    k := |bs| - |rest|;
    assert rest == bs[k..];
    assert rest[..|p.value|] == bs[k..k + |p.value|];
  }

  // ── Extension values ──────────────────────────────────────────────────────

  const SEQUENCE: Byte := 0x30

  function Concat(items: seq<ByteString>): ByteString {
    if items == [] then [] else Concat(items[..|items| - 1]) + items[|items| - 1]
  }

  /** Concatenation keeps every item, in order. */
  lemma {:induction false} ConcatKeepsItems(items: seq<ByteString>, others: seq<ByteString>)
    ensures Concat(items + others) == Concat(items) + Concat(others)
  {
    if others == [] {
      assert items + others == items;
    } else {
      var init := others[..|others| - 1];
      assert (items + others)[..|items + others| - 1] == items + init;
      ConcatKeepsItems(items, init);
    }
  }

  lemma ConcatOfFew(item: ByteString, next: ByteString)
    ensures Concat([item]) == item && Concat([item, next]) == item + next
  {
    assert [item][..0] == [] && [item, next][..1] == [item];
  }

  method EncodeTaggedBuffer(tag: Byte, content: ByteString) returns (buf: ByteString)
    ensures buf == EncodeTagged(tag, content)
  {
    buf := [tag];
    buf := EncodeDerLength(buf, |content|);
    buf := buf + content;
  }

  method EncodeSequence(items: seq<ByteString>) returns (buf: ByteString)
    ensures buf == EncodeTagged(0x30, Concat(items))
  {
    var inner: ByteString := [];
    for i := 0 to |items|
      invariant inner == Concat(items[..i])
    {
      assert items[..i + 1][..i] == items[..i];
      inner := inner + items[i];
    }
    assert items[..|items|] == items;
    buf := EncodeTaggedBuffer(SEQUENCE, inner);
  }

  const KEY_ID_TAG: Byte := 0x80

  function DecodeKeyId(bs: ByteString): Option<ByteString> {
    match DecodeWhole(SEQUENCE, bs)
    case None => None
    case Some(body) => DecodeWhole(KEY_ID_TAG, body)
  }

  /** Section 4.2.1.1 of RFC 5280: the key identifier is recovered exactly when
      it is at most 65531 bytes long; the reader rejects anything longer. */
  method EncodeAuthorityKeyIdentifier(keyId: ByteString) returns (result: ByteString)
    ensures DecodeKeyId(result) == if |keyId| <= 65531 then Some(keyId) else None
    ensures result == EncodeTagged(0x30, EncodeTagged(0x80, keyId))
    ensures |keyId| < 0x7E ==> result == [0x30, |keyId| + 2, 0x80, |keyId|] + keyId
  {
    var content: ByteString := [KEY_ID_TAG];
    content := EncodeDerLength(content, |keyId|);
    content := content + keyId;
    result := [SEQUENCE];
    result := EncodeDerLength(result, |content|);
    result := result + content;
    assert content == EncodeTagged(KEY_ID_TAG, keyId);
    assert result == EncodeTagged(SEQUENCE, content);
    WholeRoundTrip(SEQUENCE, content);
    WholeRoundTrip(KEY_ID_TAG, keyId);
  }

  const OID_TAG: Byte := 0x06
  const URI_TAG: Byte := 0x86

  /** 1.3.6.1.5.5.7.48.1, id-ad-ocsp. */
  const OCSP_OID: ByteString := [0x2B, 0x06, 0x01, 0x05, 0x05, 0x07, 0x30, 0x01]

  datatype Access = Access(method_: ByteString, uri: ByteString)

  function DecodeAccess(body: ByteString): Option<Access> {
    match DecodeTlv(OID_TAG, body)
    case None => None
    case Some(p) =>
      match DecodeWhole(URI_TAG, p.rest)
      case None => None
      case Some(uri) => Some(Access(p.value, uri))
  }

  /** An access information extension with a single entry. */
  function DecodeAia(bs: ByteString): Option<Access> {
    match DecodeWhole(SEQUENCE, bs)
    case None => None
    case Some(outer) =>
      match DecodeWhole(SEQUENCE, outer)
      case None => None
      case Some(body) => DecodeAccess(body)
  }

  lemma AccessRoundTrip(url: ByteString)
    requires |url| <= 0xFFFF
    ensures DecodeAccess(EncodeTagged(OID_TAG, OCSP_OID) + EncodeTagged(URI_TAG, url)) == Some(Access(OCSP_OID, url))
  {
    TlvRoundTrip(OID_TAG, OCSP_OID, EncodeTagged(URI_TAG, url));
    WholeRoundTrip(URI_TAG, url);
  }

  /** The OID and the URL are recovered exactly when the URL has at most 65517
      bytes; the reader rejects the encoding of anything longer. */
  method EncodeAiaOcsp(url: ByteString) returns (result: ByteString)
    ensures DecodeAia(result) == if |url| <= 65517 then Some(Access(OCSP_OID, url)) else None
    ensures result == EncodeTagged(0x30, EncodeTagged(0x30,
              [0x06, 0x08, 0x2B, 0x06, 0x01, 0x05, 0x05, 0x07, 0x30, 0x01] + EncodeTagged(0x86, url)))
  {
    var oidTlv: ByteString := [0x06, 0x08, 0x2B, 0x06, 0x01, 0x05, 0x05, 0x07, 0x30, 0x01];
    assert oidTlv == EncodeTagged(OID_TAG, OCSP_OID);
    var uriTlv := EncodeTaggedBuffer(URI_TAG, url);
    var innerSeq := EncodeSequence([oidTlv, uriTlv]);
    result := EncodeSequence([innerSeq]);
    var body := oidTlv + uriTlv;
    ConcatOfFew(oidTlv, uriTlv);
    ConcatOfFew(innerSeq, []);
    hide Concat;
    WholeRoundTrip(SEQUENCE, innerSeq);
    WholeRoundTrip(SEQUENCE, body);
    if |url| <= 65517 {
      AccessRoundTrip(url);
    }
  }
}
