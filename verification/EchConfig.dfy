/** Generation of an ECHConfigList with one entry (section 4 of
    draft-ietf-tls-esni-18), against a strict parser of that layout. */
module EchConfig {
  import opened Bytes
  import opened BigEndian

  const VERSION: Word := 0xfe0d

  datatype SuiteIds = SuiteIds(kemId: Word, kdfId: Word, aeadId: Word)

  datatype CipherSuite = CipherSuite(kdfId: Word, aeadId: Word)

  /** The fields of an ECHConfigContents. */
  datatype Contents = Contents(
    configId: Byte, kemId: Word, publicKey: ByteString, cipherSuites: seq<CipherSuite>,
    maximumNameLength: Byte, publicName: ByteString, extensions: ByteString)

  datatype EchError = PublicKeyTooLong | PublicNameTooLong | ContentsTooLong | ListTooLong

  // ── The strict parser ─────────────────────────────────────────────────────

  function ReadByte(bs: ByteString): Option<Parsed<Byte>> {
    if bs == [] then None else Some(Parsed(bs[0], bs[1..]))
  }

  function ReadWord(bs: ByteString): Option<Parsed<Word>> {
    if |bs| < 2 then None else Some(Parsed((bs[0] as int) * 0x100 + bs[1] as int, bs[2..]))
  }

  function ReadVector8(bs: ByteString): Option<Parsed<ByteString>> {
    if bs == [] then None else
      var end := 1 + bs[0] as int;
      if |bs| < end then None else Some(Parsed(bs[1..end], bs[end..]))
  }

  function ReadVector16(bs: ByteString): Option<Parsed<ByteString>> {
    match ReadWord(bs)
    case None => None
    case Some(n) => if |n.rest| < n.value then None else Some(Parsed(n.rest[..n.value], n.rest[n.value..]))
  }

  function ReadSuites(bs: ByteString): Option<seq<CipherSuite>> {
    if bs == [] then Some([]) else
      match ReadWord(bs)
      case None => None
      case Some(kdf) =>
        match ReadWord(kdf.rest)
        case None => None
        case Some(aead) =>
          match ReadSuites(aead.rest)
          case None => None
          case Some(others) => Some([CipherSuite(kdf.value, aead.value)] + others)
  }

  /** The key configuration: id, KEM, public key and cipher suites. */
  datatype KeyConfig = KeyConfig(configId: Byte, kemId: Word, publicKey: ByteString, cipherSuites: seq<CipherSuite>)

  function ReadKeyConfig(bs: ByteString): Option<Parsed<KeyConfig>> {
    match ReadByte(bs)
    case None => None
    case Some(id) =>
      match ReadWord(id.rest)
      case None => None
      case Some(kem) =>
        match ReadVector16(kem.rest)
        case None => None
        case Some(key) =>
          match ReadVector16(key.rest)
          case None => None
          case Some(suites) =>
            match ReadSuites(suites.value)
            case None => None
            case Some(ids) => Some(Parsed(KeyConfig(id.value, kem.value, key.value, ids), suites.rest))
  }

  /** Reads a whole ECHConfigContents, with nothing after it. */
  function ReadContents(bs: ByteString): Option<Contents> {
    match ReadKeyConfig(bs)
    case None => None
    case Some(k) =>
      match ReadByte(k.rest)
      case None => None
      case Some(maximum) =>
        match ReadVector8(maximum.rest)
        case None => None
        case Some(name) =>
          match ReadVector16(name.rest)
          case None => None
          case Some(ext) =>
            if ext.rest != [] then None
            else Some(Contents(k.value.configId, k.value.kemId, k.value.publicKey, k.value.cipherSuites,
                               maximum.value, name.value, ext.value))
  }

  /** A list whose prefix covers exactly one entry of this version, whose prefix
      covers exactly its contents. */
  function ReadConfigList(bs: ByteString): Option<Contents> {
    match ReadVector16(bs)
    case None => None
    case Some(list) =>
      if list.rest != [] then None else
        match ReadWord(list.value)
        case None => None
        case Some(version) =>
          if version.value != VERSION then None else
            match ReadVector16(version.rest)
            case None => None
            case Some(c) => if c.rest != [] then None else ReadContents(c.value)
  }

  /** The vectors that section 4 of the draft does not let be empty. */
  predicate Filled(c: Contents) {
    c.publicKey != [] && c.cipherSuites != [] && c.publicName != []
  }

  function ReadStrictList(bs: ByteString): Option<Contents> {
    match ReadConfigList(bs)
    case None => None
    case Some(c) => if Filled(c) then Some(c) else None
  }

  // ── The layout ────────────────────────────────────────────────────────────

  function Vector8(v: ByteString): ByteString
    requires |v| < 0x100
  {
    [|v|] + v
  }

  function Vector16(v: ByteString): ByteString
    requires |v| < 0x1_0000
  {
    U16(|v|) + v
  }

  function SuitesLayout(suites: seq<CipherSuite>): (r: ByteString)
    ensures |r| == 4 * |suites|
  {
    if suites == [] then [] else U16(suites[0].kdfId) + (U16(suites[0].aeadId) + SuitesLayout(suites[1..]))
  }

  /** The upper bounds of the vectors of a key configuration. */
  predicate KeyFits(k: KeyConfig) {
    |k.publicKey| < 0x1_0000 && |k.cipherSuites| < 0x4000
  }

  predicate Fits(c: Contents) {
    KeyFits(KeyOf(c)) && |c.publicName| < 0x100 && |c.extensions| < 0x1_0000
  }

  function KeyOf(c: Contents): KeyConfig {
    KeyConfig(c.configId, c.kemId, c.publicKey, c.cipherSuites)
  }

  function KeyLayout(k: KeyConfig): ByteString
    requires KeyFits(k)
  {
    [k.configId] + (U16(k.kemId) + (Vector16(k.publicKey) + Vector16(SuitesLayout(k.cipherSuites))))
  }

  function Layout(c: Contents): ByteString
    requires Fits(c)
  {
    KeyLayout(KeyOf(c)) +
    ([c.maximumNameLength] + (Vector8(c.publicName) + Vector16(c.extensions)))
  }

  function ListLayout(contents: ByteString): ByteString
    requires |contents| <= 0xFFFF - 4
  {
    Vector16(U16(VERSION) + Vector16(contents))
  }

  lemma WordRoundTrip(n: Word, rest: ByteString)
    ensures ReadWord(U16(n) + rest) == Some(Parsed(n, rest))
  {
    assert (U16(n) + rest)[2..] == rest;
  }

  lemma Vector16RoundTrip(v: ByteString, rest: ByteString)
    requires |v| < 0x1_0000
    ensures ReadVector16(Vector16(v) + rest) == Some(Parsed(v, rest))
  {
    assert Vector16(v) + rest == U16(|v|) + (v + rest);
    WordRoundTrip(|v|, v + rest);
    assert (v + rest)[..|v|] == v && (v + rest)[|v|..] == rest;
  }

  lemma Vector8RoundTrip(v: ByteString, rest: ByteString)
    requires |v| < 0x100
    ensures ReadVector8(Vector8(v) + rest) == Some(Parsed(v, rest))
  {
    var bs := Vector8(v) + rest;
    assert bs[1..1 + |v|] == v && bs[1 + |v|..] == rest;
  }

  lemma {:induction false} SuitesRoundTrip(suites: seq<CipherSuite>)
    ensures ReadSuites(SuitesLayout(suites)) == Some(suites)
  {
    if suites == [] {
    } else {
      var others := SuitesLayout(suites[1..]);
      WordRoundTrip(suites[0].kdfId, U16(suites[0].aeadId) + others);
      WordRoundTrip(suites[0].aeadId, others);
      SuitesRoundTrip(suites[1..]);
      assert [suites[0]] + suites[1..] == suites;
      hide ReadWord;
    }
  }

  lemma KeyRoundTrip(k: KeyConfig, rest: ByteString)
    requires KeyFits(k)
    ensures ReadKeyConfig(KeyLayout(k) + rest) == Some(Parsed(k, rest))
  {
    var suites := SuitesLayout(k.cipherSuites);
    var afterKey := Vector16(suites) + rest;
    var afterKem := Vector16(k.publicKey) + afterKey;
    var afterId := U16(k.kemId) + afterKem;
    assert KeyLayout(k) + rest == [k.configId] + afterId;
    assert ([k.configId] + afterId)[1..] == afterId;
    WordRoundTrip(k.kemId, afterKem);
    Vector16RoundTrip(k.publicKey, afterKey);
    Vector16RoundTrip(suites, rest);
    SuitesRoundTrip(k.cipherSuites);
    hide ReadWord, ReadVector16, Vector16, ReadSuites, SuitesLayout;
  }

  /** The parser recovers every field of a laid-out contents. */
  lemma ContentsRoundTrip(c: Contents)
    requires Fits(c)
    ensures ReadContents(Layout(c)) == Some(c)
  {
    hide ReadKeyConfig, ReadVector8, ReadVector16, Vector8, Vector16, KeyLayout;
    var extensions := Vector16(c.extensions);
    var afterMax := Vector8(c.publicName) + extensions;
    var afterKey := [c.maximumNameLength] + afterMax;
    assert afterKey[1..] == afterMax;
    KeyRoundTrip(KeyOf(c), afterKey);
    Vector8RoundTrip(c.publicName, extensions);
    Vector16RoundTrip(c.extensions, []);
    assert extensions + [] == extensions;
  }

  lemma ListRoundTrip(contents: ByteString)
    requires |contents| <= 0xFFFF - 4
    ensures ReadConfigList(ListLayout(contents)) == ReadContents(contents)
  {
    var entry := U16(VERSION) + Vector16(contents);
    Vector16RoundTrip(entry, []);
    assert ListLayout(contents) == Vector16(entry) + [];
    WordRoundTrip(VERSION, Vector16(contents));
    Vector16RoundTrip(contents, []);
    assert Vector16(contents) + [] == Vector16(contents);
    hide ReadVector16, ReadWord, ReadContents, Vector16;
  }

  lemma ListStartsWithVersion(contents: ByteString)
    requires |contents| <= 0xFFFF - 4
    ensures |ListLayout(contents)| >= 4 && ListLayout(contents)[2..4] == [0xfe, 0x0d]
  {
    var entry := U16(VERSION) + Vector16(contents);
    assert ListLayout(contents)[2..] == entry && entry[..2] == U16(VERSION);
    assert ListLayout(contents)[2..4] == entry[..2];
  }

  // ── Nothing else parses ───────────────────────────────────────────────────

  lemma WordIsCanonical(bs: ByteString, p: Parsed<Word>)
    requires ReadWord(bs) == Some(p)
    ensures bs == U16(p.value) + p.rest
  {
  }

  lemma Vector16IsCanonical(bs: ByteString, p: Parsed<ByteString>)
    requires ReadVector16(bs) == Some(p)
    ensures |p.value| < 0x1_0000 && bs == Vector16(p.value) + p.rest
  {
    var n := ReadWord(bs).value;
    WordIsCanonical(bs, n);
    assert n.rest == p.value + p.rest;
  }

  lemma Vector8IsCanonical(bs: ByteString, p: Parsed<ByteString>)
    requires ReadVector8(bs) == Some(p)
    ensures |p.value| < 0x100 && bs == Vector8(p.value) + p.rest
  {
  }

  lemma ByteIsCanonical(bs: ByteString, p: Parsed<Byte>)
    requires ReadByte(bs) == Some(p)
    ensures bs == [p.value] + p.rest
  {
  }

  lemma {:induction false} SuitesAreCanonical(bs: ByteString, suites: seq<CipherSuite>)
    requires ReadSuites(bs) == Some(suites)
    ensures bs == SuitesLayout(suites)
    decreases |bs|
  {
    if bs == [] {
    } else {
      var kdf := ReadWord(bs).value;
      var aead := ReadWord(kdf.rest).value;
      WordIsCanonical(bs, kdf);
      WordIsCanonical(kdf.rest, aead);
      SuitesAreCanonical(aead.rest, suites[1..]);
      hide ReadWord;
    }
  }

  lemma KeyIsCanonical(bs: ByteString, p: Parsed<KeyConfig>)
    requires ReadKeyConfig(bs) == Some(p)
    ensures KeyFits(p.value)
    ensures bs == KeyLayout(p.value) + p.rest
  {
    hide ReadByte, ReadWord, ReadVector16, Vector16, U16, ReadSuites, SuitesLayout;
    var id := ReadByte(bs).value;
    var kem := ReadWord(id.rest).value;
    var key := ReadVector16(kem.rest).value;
    var suites := ReadVector16(key.rest).value;
    ByteIsCanonical(bs, id);
    WordIsCanonical(id.rest, kem);
    Vector16IsCanonical(kem.rest, key);
    Vector16IsCanonical(key.rest, suites);
    SuitesAreCanonical(suites.value, p.value.cipherSuites);
  }

  /** The layout is the only byte string the parser reads as these fields. */
  lemma ContentsAreCanonical(bs: ByteString, c: Contents)
    requires ReadContents(bs) == Some(c)
    ensures Fits(c) && bs == Layout(c)
  {
    hide ReadKeyConfig, ReadByte, ReadVector8, ReadVector16, Vector8, Vector16, KeyLayout;
    var k := ReadKeyConfig(bs).value;
    var maximum := ReadByte(k.rest).value;
    var name := ReadVector8(maximum.rest).value;
    var ext := ReadVector16(name.rest).value;
    KeyIsCanonical(bs, k);
    ByteIsCanonical(k.rest, maximum);
    Vector8IsCanonical(maximum.rest, name);
    Vector16IsCanonical(name.rest, ext);
  }

  /** The same for the whole list. */
  lemma ListIsCanonical(bs: ByteString, c: Contents)
    requires ReadConfigList(bs) == Some(c)
    ensures Fits(c) && |Layout(c)| <= 0xFFFF - 4 && bs == ListLayout(Layout(c))
  {
    hide ReadVector16, ReadWord, ReadContents, Layout;
    var list := ReadVector16(bs).value;
    var version := ReadWord(list.value).value;
    var entry := ReadVector16(version.rest).value;
    Vector16IsCanonical(bs, list);
    WordIsCanonical(list.value, version);
    Vector16IsCanonical(version.rest, entry);
    ContentsAreCanonical(entry.value, c);
    assert version.rest == Vector16(Layout(c));
    assert list.value == U16(VERSION) + Vector16(Layout(c));
  }

  // ── The generator ─────────────────────────────────────────────────────────

  ghost function Requested(ids: SuiteIds, configId: Byte, key: ByteString, name: ByteString, maximum: Byte): Contents {
    Contents(configId, ids.kemId, key, [CipherSuite(ids.kdfId, ids.aeadId)], maximum, name, [])
  }

  method EncodeContents(ids: SuiteIds, configId: Byte, key: ByteString, name: ByteString, maximum: Byte)
    returns (r: Result<ByteString, EchError>)
    ensures r.Err? <==> |key| > 0xFFFF || |name| > 0xFF
    ensures r.Err? ==> r.error == if |key| > 0xFFFF then PublicKeyTooLong else PublicNameTooLong
    ensures r.Ok? ==> Fits(Requested(ids, configId, key, name, maximum))
    ensures r.Ok? ==> r.value == Layout(Requested(ids, configId, key, name, maximum)) && |r.value| == 15 + |key| + |name|
  {
    var contents: ByteString := [];
    contents := contents + [configId];
    contents := contents + U16(ids.kemId);
    if |key| > 0xFFFF {
      return Err(PublicKeyTooLong);
    }
    contents := contents + U16(|key|);
    contents := contents + key;
    contents := contents + U16(4);
    contents := contents + U16(ids.kdfId);
    contents := contents + U16(ids.aeadId);
    ghost var k := KeyConfig(configId, ids.kemId, key, [CipherSuite(ids.kdfId, ids.aeadId)]);
    assert SuitesLayout(k.cipherSuites) == U16(ids.kdfId) + U16(ids.aeadId);
    assert contents == KeyLayout(k);
    contents := contents + [maximum];
    if |name| > 0xFF {
      return Err(PublicNameTooLong);
    }
    contents := contents + [|name|];
    contents := contents + name;
    contents := contents + U16(0);
    assert contents == KeyLayout(k) + ([maximum] + (Vector8(name) + Vector16([])));
    return Ok(contents);
  }

  method WrapConfigList(contents: ByteString) returns (r: Result<ByteString, EchError>)
    ensures r == if |contents| > 0xFFFF then Err(ContentsTooLong)
                 else if |contents| > 0xFFFF - 4 then Err(ListTooLong)
                 else Ok(ListLayout(contents))
  {
    if |contents| > 0xFFFF {
      return Err(ContentsTooLong);
    }
    var echConfig: ByteString := U16(0xfe0d);
    echConfig := echConfig + U16(|contents|);
    echConfig := echConfig + contents;
    if |echConfig| > 0xFFFF {
      return Err(ListTooLong);
    }
    var configList := U16(|echConfig|);
    configList := configList + echConfig;
    assert echConfig == U16(VERSION) + Vector16(contents);
    return Ok(configList);
  }

  /** The two steps together: they succeed exactly when the name has at most 255
      bytes and key and name at most 65516 together, and then the parser gives
      back every requested field. An empty key or name, which the draft forbids,
      is let through. */
  method GenerateConfigList(ids: SuiteIds, configId: Byte, key: ByteString, name: ByteString, maximum: Byte)
    returns (r: Result<ByteString, EchError>)
    ensures r.Ok? <==> |name| <= 255 && |key| + |name| <= 65516
    ensures r.Err? ==> r.error == if |key| > 0xFFFF then PublicKeyTooLong else if |name| > 0xFF then PublicNameTooLong
                                  else if |key| + |name| > 0xFFFF - 15 then ContentsTooLong else ListTooLong
    ensures r.Ok? ==> ReadConfigList(r.value) == Some(Requested(ids, configId, key, name, maximum))
    ensures r.Ok? ==> (ReadStrictList(r.value).Some? <==> key != [] && name != [])
    ensures r.Ok? ==> r.value[2..4] == [0xfe, 0x0d]
  {
    hide ReadConfigList, ReadContents, Layout, ListLayout, Fits;
    var contents := EncodeContents(ids, configId, key, name, maximum);
    if contents.Err? {
      return Err(contents.error);
    }
    ContentsRoundTrip(Requested(ids, configId, key, name, maximum));
    r := WrapConfigList(contents.value);
    if r.Ok? {
      ListRoundTrip(contents.value);
      ListStartsWithVersion(contents.value);
    }
  }
}
