/** The labelled HKDF inputs of HPKE (section 4 of RFC 9180): plain concatenations
    without length prefixes, which must nevertheless never coincide. */
module HpkeLabels {
  import opened Bytes
  import opened BigEndian

  /** "HPKE-v1". */
  const HPKE_V1: ByteString := [0x48, 0x50, 0x4B, 0x45, 0x2D, 0x76, 0x31]

  /** The suite that names the domain: the KEM's own, or the full HPKE suite. */
  datatype Suite = Kem(kemId: Word) | Hpke(kemId: Word, kdfId: Word, aeadId: Word)

  function SuiteId(s: Suite): ByteString {
    match s
    case Kem(kem) => [0x4B, 0x45, 0x4D] + U16(kem)
    case Hpke(kem, kdf, aead) => [0x48, 0x50, 0x4B, 0x45] + U16(kem) + U16(kdf) + U16(aead)
  }

  datatype ExtractLabel = EaePrk | PskIdHash | InfoHash | Secret

  datatype ExpandLabel = SharedSecret | AeadKey | BaseNonce | Exp | Sec

  function ExtractBytes(l: ExtractLabel): ByteString {
    match l
    case EaePrk => [0x65, 0x61, 0x65, 0x5F, 0x70, 0x72, 0x6B]
    case PskIdHash => [0x70, 0x73, 0x6B, 0x5F, 0x69, 0x64, 0x5F, 0x68, 0x61, 0x73, 0x68]
    case InfoHash => [0x69, 0x6E, 0x66, 0x6F, 0x5F, 0x68, 0x61, 0x73, 0x68]
    case Secret => [0x73, 0x65, 0x63, 0x72, 0x65, 0x74]
  }

  function ExpandBytes(l: ExpandLabel): ByteString {
    match l
    case SharedSecret => [0x73, 0x68, 0x61, 0x72, 0x65, 0x64, 0x5F, 0x73, 0x65, 0x63, 0x72, 0x65, 0x74]
    case AeadKey => [0x6B, 0x65, 0x79]
    case BaseNonce => [0x62, 0x61, 0x73, 0x65, 0x5F, 0x6E, 0x6F, 0x6E, 0x63, 0x65]
    case Exp => [0x65, 0x78, 0x70]
    case Sec => [0x73, 0x65, 0x63]
  }

  /** What LabeledExtract feeds as keying material. */
  function ExtractInput(s: Suite, l: ExtractLabel, ikm: ByteString): ByteString {
    HPKE_V1 + SuiteId(s) + ExtractBytes(l) + ikm
  }

  /** What LabeledExpand feeds as info for `len` bytes of output. */
  function ExpandInfo(len: Word, s: Suite, l: ExpandLabel, info: ByteString): ByteString {
    U16(len) + HPKE_V1 + SuiteId(s) + ExpandBytes(l) + info
  }

  function ExtractName(l: ExtractLabel): string {
    match l
    case EaePrk => "eae_prk"
    case PskIdHash => "psk_id_hash"
    case InfoHash => "info_hash"
    case Secret => "secret"
  }

  function ExpandName(l: ExpandLabel): string {
    match l
    case SharedSecret => "shared_secret"
    case AeadKey => "key"
    case BaseNonce => "base_nonce"
    case Exp => "exp"
    case Sec => "sec"
  }

  function SuiteName(s: Suite): string {
    if s.Kem? then "KEM" else "HPKE"
  }

  function SuiteNumbers(s: Suite): ByteString {
    match s
    case Kem(kem) => U16(kem)
    case Hpke(kem, kdf, aead) => U16(kem) + (U16(kdf) + U16(aead))
  }

  lemma ExtractLabelBytes(l: ExtractLabel)
    ensures ExtractBytes(l) == Ascii(ExtractName(l))
  {
  }

  lemma ExpandLabelBytes(l: ExpandLabel)
    ensures ExpandBytes(l) == Ascii(ExpandName(l))
  {
  }

  lemma SuiteBytes(s: Suite)
    ensures HPKE_V1 == Ascii("HPKE-v1") && SuiteId(s) == Ascii(SuiteName(s)) + SuiteNumbers(s)
  {
    assert Ascii("KEM") == [0x4B, 0x45, 0x4D] && Ascii("HPKE") == [0x48, 0x50, 0x4B, 0x45];
    assert Ascii("HPKE-v1") == HPKE_V1;
    hide Ascii, U16;
  }

  /** The inputs spelled out in the names of RFC 9180, sections 4, 4.1 and 5.1. */
  lemma InputsAreSpelledOut(s: Suite, l: ExtractLabel, ikm: ByteString, len: Word, m: ExpandLabel, info: ByteString)
    ensures ExtractInput(s, l, ikm) ==
            Ascii("HPKE-v1") + (Ascii(SuiteName(s)) + SuiteNumbers(s)) + Ascii(ExtractName(l)) + ikm
    ensures ExpandInfo(len, s, m, info) ==
            U16(len) + Ascii("HPKE-v1") + (Ascii(SuiteName(s)) + SuiteNumbers(s)) + Ascii(ExpandName(m)) + info
  {
    SuiteBytes(s);
    ExtractLabelBytes(l);
    ExpandLabelBytes(m);
    hide Ascii, SuiteId, SuiteNumbers, ExtractBytes, ExpandBytes;
  }

  lemma SameStart(a: ByteString, x: ByteString, b: ByteString, y: ByteString)
    requires a + x == b + y && |a| == |b|
    ensures a == b && x == y
  {
    assert a == (a + x)[..|a|] && b == (b + y)[..|b|];
    assert x == (a + x)[|a|..] && y == (b + y)[|b|..];
  }

  lemma WordsAreInjective(m: Word, n: Word)
    requires U16(m) == U16(n)
    ensures m == n
  {
    ValueOfU16(m);
    ValueOfU16(n);
  }

  /** Suite identifiers need no delimiter. */
  lemma SuitesAreSeparated(s: Suite, x: ByteString, t: Suite, y: ByteString)
    requires SuiteId(s) + x == SuiteId(t) + y
    ensures s == t && x == y
  {
    assert (SuiteId(s) + x)[0] == SuiteId(s)[0] && (SuiteId(t) + y)[0] == SuiteId(t)[0];
    assert s.Kem? == t.Kem?;
    SameStart(SuiteId(s), x, SuiteId(t), y);
    var a, b := SuiteId(s), SuiteId(t);
    if s.Kem? {
      assert a[3..5] == U16(s.kemId) && b[3..5] == U16(t.kemId);
      WordsAreInjective(s.kemId, t.kemId);
    } else {
      assert a[4..6] == U16(s.kemId) && b[4..6] == U16(t.kemId);
      assert a[6..8] == U16(s.kdfId) && b[6..8] == U16(t.kdfId);
      assert a[8..10] == U16(s.aeadId) && b[8..10] == U16(t.aeadId);
      WordsAreInjective(s.kemId, t.kemId);
      WordsAreInjective(s.kdfId, t.kdfId);
      WordsAreInjective(s.aeadId, t.aeadId);
    }
  }

  lemma ExtractLabelsAreSeparated(l: ExtractLabel, x: ByteString, m: ExtractLabel, y: ByteString)
    requires ExtractBytes(l) + x == ExtractBytes(m) + y
    ensures l == m && x == y
  {
    assert (ExtractBytes(l) + x)[0] == ExtractBytes(l)[0] && (ExtractBytes(m) + y)[0] == ExtractBytes(m)[0];
    assert l == m;
    SameStart(ExtractBytes(l), x, ExtractBytes(m), y);
  }

  lemma ExpandLabelsAreSeparated(l: ExpandLabel, x: ByteString, m: ExpandLabel, y: ByteString)
    requires ExpandBytes(l) + x == ExpandBytes(m) + y
    ensures l == m && x == y
  {
    assert (ExpandBytes(l) + x)[0] == ExpandBytes(l)[0] && (ExpandBytes(m) + y)[0] == ExpandBytes(m)[0];
    assert (ExpandBytes(l) + x)[1] == ExpandBytes(l)[1] && (ExpandBytes(m) + y)[1] == ExpandBytes(m)[1];
    assert l == m;
    SameStart(ExpandBytes(l), x, ExpandBytes(m), y);
  }

  /** Two extract inputs coincide only when suite, label and keying material all
      do, for every suite and every keying material. */
  lemma ExtractInputsNeverCoincide(s: Suite, l: ExtractLabel, x: ByteString, t: Suite, m: ExtractLabel, y: ByteString)
    requires ExtractInput(s, l, x) == ExtractInput(t, m, y)
    ensures s == t && l == m && x == y
  {
    hide SuiteId, ExtractBytes;
    var a, b := SuiteId(s) + (ExtractBytes(l) + x), SuiteId(t) + (ExtractBytes(m) + y);
    assert ExtractInput(s, l, x) == HPKE_V1 + a && ExtractInput(t, m, y) == HPKE_V1 + b;
    SameStart(HPKE_V1, a, HPKE_V1, b);
    SuitesAreSeparated(s, ExtractBytes(l) + x, t, ExtractBytes(m) + y);
    ExtractLabelsAreSeparated(l, x, m, y);
  }

  /** The same for expand, including the requested length. */
  lemma ExpandInfosNeverCoincide(
    j: Word, s: Suite, l: ExpandLabel, x: ByteString, k: Word, t: Suite, m: ExpandLabel, y: ByteString)
    requires ExpandInfo(j, s, l, x) == ExpandInfo(k, t, m, y)
    ensures j == k && s == t && l == m && x == y
  {
    hide SuiteId, ExpandBytes, U16;
    var a, b := SuiteId(s) + (ExpandBytes(l) + x), SuiteId(t) + (ExpandBytes(m) + y);
    assert ExpandInfo(j, s, l, x) == U16(j) + (HPKE_V1 + a) && ExpandInfo(k, t, m, y) == U16(k) + (HPKE_V1 + b);
    SameStart(U16(j), HPKE_V1 + a, U16(k), HPKE_V1 + b);
    WordsAreInjective(j, k);
    SameStart(HPKE_V1, a, HPKE_V1, b);
    SuitesAreSeparated(s, ExpandBytes(l) + x, t, ExpandBytes(m) + y);
    ExpandLabelsAreSeparated(l, x, m, y);
  }
}
