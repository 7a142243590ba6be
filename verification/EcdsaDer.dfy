/** Post-processing of token signatures: raw r||s into the DER form of section
    2.2.3 of RFC 3279, against a strict DER reader of two non-negative INTEGERs. */
module EcdsaDer {
  import opened Bytes
  import opened BigEndian
  import opened Der

  const INTEGER: Byte := 0x02

  datatype Pair = Pair(r: nat, s: nat)

  // ── The strict reader ─────────────────────────────────────────────────────

  /** A non-negative INTEGER in the fewest octets. */
  predicate Minimal(content: ByteString) {
    && content != [] && content[0] < 0x80
    && (|content| > 1 && content[0] == 0 ==> content[1] >= 0x80)
  }

  /** The two contents of a signature and nothing else around them. */
  datatype Contents = Contents(r: ByteString, s: ByteString)

  function ReadContents(bs: ByteString): Option<Contents> {
    match DecodeWhole(SEQUENCE, bs)
    case None => None
    case Some(body) =>
      match DecodeTlv(INTEGER, body)
      case None => None
      case Some(p) =>
        match DecodeWhole(INTEGER, p.rest)
        case None => None
        case Some(s) => if Minimal(p.value) && Minimal(s) then Some(Contents(p.value, s)) else None
  }

  function ReadSignature(bs: ByteString): Option<Pair> {
    match ReadContents(bs)
    case None => None
    case Some(c) => Some(Pair(Value(c.r), Value(c.s)))
  }

  lemma MinimalIsUnique(a: ByteString, b: ByteString)
    requires Minimal(a) && Minimal(b) && Value(a) == Value(b)
    ensures a == b
  {
    StripFacts(a);
    StripFacts(b);
    StrippedIsUnique(Strip(a), Strip(b));
    MinimalShape(a);
    MinimalShape(b);
  }

  /** A minimal content is its digits, padded when the first one is high. */
  lemma MinimalShape(a: ByteString)
    requires Minimal(a)
    ensures a == Padded(Strip(a))
  {
    if a[0] == 0 {
      assert Strip(a) == Strip(a[1..]) == a[1..];
      assert a == [0] + a[1..];
    }
  }

  // ── The encoder ───────────────────────────────────────────────────────────

  function Padded(digits: ByteString): ByteString {
    if digits == [] || digits[0] >= 0x80 then [0] + digits else digits
  }

  function IntContent(bytes: ByteString): ByteString {
    Padded(Strip(bytes))
  }

  /** Tag and one length octet, whose cast keeps the low eight bits. */
  function ShortTlv(tag: Byte, content: ByteString): ByteString {
    [tag, |content| % 0x100] + content
  }

  function RawToDer(raw: ByteString): ByteString {
    var half := |raw| / 2;
    ShortTlv(SEQUENCE, ShortTlv(INTEGER, IntContent(raw[..half])) + ShortTlv(INTEGER, IntContent(raw[half..])))
  }

  lemma IntContentFacts(bytes: ByteString)
    ensures Minimal(IntContent(bytes)) && Value(IntContent(bytes)) == Value(bytes)
    ensures |IntContent(bytes)| <= |bytes| + 1
  {
    StripFacts(bytes);
    LeadingZero(Strip(bytes));
  }

  ghost function Halves(raw: ByteString): Pair {
    Pair(Value(raw[..|raw| / 2]), Value(raw[|raw| / 2..]))
  }

  /** The octets the two numbers take as minimal INTEGER contents. */
  ghost function IntegerOctets(raw: ByteString): nat {
    |IntContent(raw[..|raw| / 2])| + |IntContent(raw[|raw| / 2..])|
  }

  lemma ShortTlvIsTagged(tag: Byte, content: ByteString)
    requires |content| < 0x80
    ensures ShortTlv(tag, content) == EncodeTagged(tag, content)
  {
  }

  lemma SmallSignatureRoundTrip(raw: ByteString)
    requires IntegerOctets(raw) <= 123
    ensures ReadSignature(RawToDer(raw)) == Some(Halves(raw))
  {
    var half := |raw| / 2;
    var r, s := IntContent(raw[..half]), IntContent(raw[half..]);
    IntContentFacts(raw[..half]);
    IntContentFacts(raw[half..]);
    ShortTlvIsTagged(INTEGER, r);
    ShortTlvIsTagged(INTEGER, s);
    var body := EncodeTagged(INTEGER, r) + EncodeTagged(INTEGER, s);
    ShortTlvIsTagged(SEQUENCE, body);
    WholeRoundTrip(SEQUENCE, body);
    TlvRoundTrip(INTEGER, r, EncodeTagged(INTEGER, s));
    WholeRoundTrip(INTEGER, s);
    assert ReadContents(RawToDer(raw)) == Some(Contents(r, s));
  }

  lemma WholeLayout(tag: Byte, bs: ByteString, content: ByteString) returns (k: nat)
    requires DecodeWhole(tag, bs) == Some(content)
    ensures k >= 2 && |bs| == k + |content| && bs[k..] == content
    ensures k == 2 ==> |content| < 0x80
  {
    k := TlvLayout(tag, bs);
    assert bs[k..] == bs[k..k + |content|];
  }

  lemma BodyLayout(body: ByteString, r: ByteString, rest: ByteString, s: ByteString) returns (k: nat, g: nat)
    requires DecodeTlv(INTEGER, body) == Some(Parsed(r, rest)) && DecodeWhole(INTEGER, rest) == Some(s)
    ensures k >= 2 && g >= 2 && |body| == k + |r| + g + |s| && body[k..k + |r|] == r
  {
    hide *;
    k := TlvLayout(INTEGER, body);
    g := WholeLayout(INTEGER, rest, s);
  }

  lemma SignatureLayout(bs: ByteString, body: ByteString, r: ByteString, rest: ByteString, s: ByteString)
    returns (h: nat, g: nat)
    requires DecodeWhole(SEQUENCE, bs) == Some(body)
    requires DecodeTlv(INTEGER, body) == Some(Parsed(r, rest)) && DecodeWhole(INTEGER, rest) == Some(s)
    ensures h >= 4 && g >= 2 && |bs| == h + |r| + g + |s| && bs[h..h + |r|] == r
    ensures h == 4 && g == 2 ==> |r| + |s| <= 123
  {
    hide *;
    var outer := WholeLayout(SEQUENCE, bs, body);
    var inner;
    inner, g := BodyLayout(body, r, rest, s);
    h := outer + inner;
    JoinLayouts(bs, body, r, outer, inner);
  }

  lemma JoinLayouts(bs: ByteString, body: ByteString, r: ByteString, outer: nat, inner: nat)
    requires |bs| == outer + |body| && bs[outer..] == body
    requires inner + |r| <= |body| && body[inner..inner + |r|] == r
    ensures bs[outer + inner..outer + inner + |r|] == r
  {
  }

  /** Where a read signature keeps its two contents. */
  lemma ContentsLayout(bs: ByteString, c: Contents) returns (h: nat, g: nat)
    requires ReadContents(bs) == Some(c)
    ensures h >= 4 && g >= 2 && |bs| == h + |c.r| + g + |c.s| && bs[h..h + |c.r|] == c.r
    ensures h == 4 && g == 2 ==> |c.r| + |c.s| <= 123
  {
    hide DecodeWhole, DecodeTlv;
    var body := DecodeWhole(SEQUENCE, bs).value;
    h, g := SignatureLayout(bs, body, c.r, DecodeTlv(INTEGER, body).value.rest, c.s);
  }

  /** The conversion yields a strict encoding of the same two numbers exactly
      when their minimal contents take at most 123 octets together. */
  lemma RawToDerRoundTrip(raw: ByteString)
    ensures ReadSignature(RawToDer(raw)) == Some(Halves(raw)) <==> IntegerOctets(raw) <= 123
    ensures |raw| <= 120 ==> IntegerOctets(raw) <= 123
  {
    var half := |raw| / 2;
    IntContentFacts(raw[..half]);
    IntContentFacts(raw[half..]);
    if IntegerOctets(raw) <= 123 {
      SmallSignatureRoundTrip(raw);
    } else if ReadSignature(RawToDer(raw)) == Some(Halves(raw)) {
      var c := ReadContents(RawToDer(raw)).value;
      MinimalIsUnique(c.r, IntContent(raw[..half]));
      MinimalIsUnique(c.s, IntContent(raw[half..]));
      assert |RawToDer(raw)| == 6 + IntegerOctets(raw);
      var h, g := ContentsLayout(RawToDer(raw), c);
      assert false;
    }
  }

  /** The bytes of the conversion, for numbers of any size: the minimal contents of
      the two numbers, each behind its tag and the low eight bits of its length. */
  lemma ConversionBytes(raw: ByteString, r: ByteString, s: ByteString)
    requires Minimal(r) && Minimal(s) && Pair(Value(r), Value(s)) == Halves(raw)
    ensures RawToDer(raw) ==
            [0x30, (|r| + |s| + 4) % 0x100] + (([0x02, |r| % 0x100] + r) + ([0x02, |s| % 0x100] + s))
  {
    var half := |raw| / 2;
    IntContentFacts(raw[..half]);
    IntContentFacts(raw[half..]);
    MinimalIsUnique(r, IntContent(raw[..half]));
    MinimalIsUnique(s, IntContent(raw[half..]));
    ShortTlvBytes(r, s);
    hide *;
  }

  lemma ShortTlvBytes(r: ByteString, s: ByteString)
    ensures ShortTlv(SEQUENCE, ShortTlv(INTEGER, r) + ShortTlv(INTEGER, s)) ==
            [0x30, (|r| + |s| + 4) % 0x100] + (([0x02, |r| % 0x100] + r) + ([0x02, |s| % 0x100] + s))
  {
  }

  // ── finalize_signature ────────────────────────────────────────────────────

  datatype Scheme = EcdsaNistP256Sha256 | EcdsaNistP384Sha384 | Rsa

  datatype SignError = InvalidSignatureLength(expected: nat, got: nat)

  function Convert(raw: ByteString): Result<ByteString, SignError> {
    if |raw| % 2 != 0 then Err(InvalidSignatureLength(|raw| / 2 * 2, |raw|)) else Ok(RawToDer(raw))
  }

  function Finalize(scheme: Scheme, raw: ByteString): Result<ByteString, SignError> {
    match scheme
    case Rsa => Ok(raw)
    case _ => if raw != [] && raw[0] == SEQUENCE then Ok(raw) else Convert(raw)
  }

  lemma {:induction false} ZerosSpread(bs: ByteString, from: nat, h: nat, half: nat)
    requires h > 0 && half + h <= |bs| && from <= half
    requires forall k :: 0 <= k < half ==> bs[k] == bs[h + k]
    requires forall k :: half <= k < half + h ==> bs[k] == 0
    ensures forall k :: from <= k < half + h ==> bs[k] == 0
    decreases half - from
  {
    if from == half {
    } else {
      ZerosSpread(bs, from + 1, h, half);
      assert bs[from] == bs[h + from];
    }
  }

  /** If the first half reappears `h` bytes in, followed by too few bytes for the
      second half, then the string is all zeros up to there. */
  lemma OverlapForcesZero(raw: ByteString, half: nat, h: nat, tail: ByteString)
    requires |raw| == 2 * half && 0 < h && |tail| + h <= half
    requires raw[h..h + half] == raw[..half] && Value(tail) == Value(raw[half..])
    ensures forall k :: 0 <= k < half + h ==> raw[k] == 0
  {
    var s := raw[half..];
    StripFacts(s);
    StripFacts(tail);
    StrippedIsUnique(Strip(s), Strip(tail));
    forall k | half <= k < half + h ensures raw[k] == 0 {
      assert raw[k] == s[k - half];
    }
    forall k | 0 <= k < half ensures raw[k] == raw[h + k] {
      assert raw[h..h + half][k] == raw[..half][k];
    }
    ZerosSpread(raw, 0, h, half);
  }

  /** A raw signature that happens to start with the SEQUENCE tag is never a
      strict encoding of its own two halves. */
  lemma TaggedRawIsNotItsOwnDer(raw: ByteString)
    requires |raw| % 2 == 0 && raw != [] && raw[0] == SEQUENCE
    ensures ReadSignature(raw) != Some(Halves(raw))
  {
    if ReadSignature(raw) == Some(Halves(raw)) {
      var half := |raw| / 2;
      var c := ReadContents(raw).value;
      assert Minimal(c.r) && Value(c.r) == Value(raw[..half]) && Value(c.s) == Value(raw[half..]);
      TaggedHalves(raw, half, c);
      assert false;
    }
  }

  lemma TaggedHalves(raw: ByteString, half: nat, c: Contents)
    requires |raw| == 2 * half && raw != [] && raw[0] == SEQUENCE && ReadContents(raw) == Some(c)
    ensures !(Minimal(c.r) && Value(c.r) == Value(raw[..half]) && Value(c.s) == Value(raw[half..]))
  {
    hide *;
    var h, g := ContentsLayout(raw, c);
    TaggedContents(raw, half, h, c.r, c.s);
  }

  lemma TaggedContents(raw: ByteString, half: nat, h: nat, r: ByteString, s: ByteString)
    requires |raw| == 2 * half && raw != [] && raw[0] == SEQUENCE
    requires h > 0 && h + |r| + |s| <= |raw| && raw[h..h + |r|] == r
    ensures !(Minimal(r) && Value(r) == Value(raw[..half]) && Value(s) == Value(raw[half..]))
  {
    if Minimal(r) && Value(r) == Value(raw[..half]) && Value(s) == Value(raw[half..]) {
      MinimalIsUnique(r, raw[..half]);
      OverlapForcesZero(raw, half, h, s);
      assert false;
    }
  }

  lemma StrictStartsWithTag(bs: ByteString)
    requires ReadSignature(bs).Some?
    ensures bs != [] && bs[0] == SEQUENCE
  {
  }

  /** For an ECDSA scheme and an even length, the result reads as the two raw
      halves exactly when the first byte is not 0x30 and the numbers fit: a raw
      signature starting with 0x30 is passed through unconverted. A signature
      that already is a strict encoding is never changed, nor is one of RSA. */
  lemma FinalizeYieldsDer(scheme: Scheme, raw: ByteString)
    ensures scheme.Rsa? ==> Finalize(scheme, raw) == Ok(raw)
    ensures !scheme.Rsa? && |raw| % 2 == 0 ==>
      && Finalize(scheme, raw).Ok?
      && (ReadSignature(Finalize(scheme, raw).value) == Some(Halves(raw))
          <==> (raw == [] || raw[0] != 0x30) && IntegerOctets(raw) <= 123)
    ensures Finalize(scheme, raw).Err? <==> !scheme.Rsa? && |raw| % 2 != 0 && raw[0] != 0x30
    ensures ReadSignature(raw).Some? || (raw != [] && raw[0] == 0x30) ==> Finalize(scheme, raw) == Ok(raw)
  {
    if ReadSignature(raw).Some? {
      StrictStartsWithTag(raw);
    }
    RawToDerRoundTrip(raw);
    hide ReadSignature, RawToDer, Halves, IntegerOctets;
    if |raw| % 2 == 0 && raw != [] && raw[0] == SEQUENCE {
      TaggedRawIsNotItsOwnDer(raw);
    }
  }

  /** Finalizing an accepted result again changes nothing. */
  lemma FinalizeIsIdempotent(scheme: Scheme, raw: ByteString)
    requires Finalize(scheme, raw).Ok?
    ensures Finalize(scheme, Finalize(scheme, raw).value) == Finalize(scheme, raw)
  {
  }

  /** A 64-byte r||s that is left unconverted. */
  lemma UnconvertedExample() returns (raw: ByteString)
    ensures |raw| == 64 && Finalize(EcdsaNistP256Sha256, raw) == Ok(raw)
    ensures ReadSignature(raw) != Some(Halves(raw))
  {
    raw := [SEQUENCE] + seq(63, _ => 0x01);
    TaggedRawIsNotItsOwnDer(raw);
  }

  // ── The byte-level routine ────────────────────────────────────────────────

  lemma {:induction false} StripAt(bytes: ByteString, i: nat)
    requires i <= |bytes| && forall k :: 0 <= k < i ==> bytes[k] == 0
    requires i < |bytes| ==> bytes[i] != 0
    ensures Strip(bytes) == bytes[i..]
  {
    if i == 0 {
    } else {
      StripAt(bytes[1..], i - 1);
      assert bytes[1..][i - 1..] == bytes[i..];
    }
  }

  lemma IntContentAt(bytes: ByteString, i: nat)
    requires i <= |bytes| && forall k :: 0 <= k < i ==> bytes[k] == 0
    requires i < |bytes| ==> bytes[i] != 0
    ensures IntContent(bytes) == Padded(if i < |bytes| then bytes[i..] else [0])
  {
    StripAt(bytes, i);
  }

  method EncodeInt(bytes: ByteString) returns (enc: ByteString)
    ensures enc == ShortTlv(INTEGER, IntContent(bytes))
  {
    hide IntContent, Strip;
    var i := 0;
    while i < |bytes| && bytes[i] == 0
      invariant i <= |bytes|
      invariant forall k :: 0 <= k < i ==> bytes[k] == 0
    {
      i := i + 1;
    }
    IntContentAt(bytes, i);
    var stripped: ByteString := if i < |bytes| then bytes[i..] else [0];
    var needsPad := stripped[0] >= 0x80;
    var contentLen := |stripped| + if needsPad then 1 else 0;
    enc := [INTEGER];
    enc := enc + [contentLen % 0x100];
    if needsPad {
      enc := enc + [0x00];
    }
    enc := enc + stripped;
    assert IntContent(bytes) == if needsPad then [0x00] + stripped else stripped;
    assert enc == [INTEGER, contentLen % 0x100] + IntContent(bytes);
  }

  method RawEcdsaToDer(raw: ByteString) returns (res: Result<ByteString, SignError>)
    ensures res == Convert(raw)
  {
    if |raw| % 2 != 0 {
      return Err(InvalidSignatureLength(|raw| / 2 * 2, |raw|));
    }
    var half := |raw| / 2;
    var r := EncodeInt(raw[..half]);
    var s := EncodeInt(raw[half..]);
    var seqLen := |r| + |s|;
    var der: ByteString := [SEQUENCE];
    der := der + [seqLen % 0x100];
    der := der + r;
    der := der + s;
    assert der == [SEQUENCE, seqLen % 0x100] + (r + s);
    return Ok(der);
  }

  /** RSA signatures pass unchanged. An ECDSA one is left alone when it starts like
      a SEQUENCE; otherwise an odd length is refused, and an even one comes out as
      an encoding of its two halves exactly when they fit. */
  method FinalizeSignature(scheme: Scheme, raw: ByteString) returns (res: Result<ByteString, SignError>)
    ensures res == Finalize(scheme, raw)
    ensures scheme.Rsa? || (raw != [] && raw[0] == 0x30) ==> res == Ok(raw)
    ensures !scheme.Rsa? && (raw == [] || raw[0] != 0x30) ==>
      if |raw| % 2 != 0 then res == Err(InvalidSignatureLength(|raw| - 1, |raw|))
      else res.Ok? && (ReadSignature(res.value) == Some(Halves(raw)) <==> IntegerOctets(raw) <= 123)
  {
    FinalizeYieldsDer(scheme, raw);
    hide ReadSignature, RawToDer, Halves, IntegerOctets;
    match scheme {
      case EcdsaNistP256Sha256 | EcdsaNistP384Sha384 =>
        if raw != [] && raw[0] == 0x30 {
          return Ok(raw);
        }
        res := RawEcdsaToDer(raw);
      case Rsa =>
        return Ok(raw);
    }
  }
}
