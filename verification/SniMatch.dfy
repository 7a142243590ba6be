/** Choosing a certificate by server name: an exact entry, else a wildcard entry
    that stands for exactly one left-most label (section 6.4.3 of RFC 6125), else
    the default. */
module SniMatch {
  import opened Bytes

  const WILDCARD := "*."

  /** Whether a key is a wildcard for the name: what is left of the name once the
      key's suffix is cut off must be one non-empty label and a dot. */
  predicate WildcardMatches(key: string, requested: string) {
    && |key| >= 2 && key[..2] == WILDCARD
    && var suffix := key[2..];
    && |requested| >= |suffix| && requested[|requested| - |suffix|..] == suffix
    && var labelDot := requested[..|requested| - |suffix|];
    && |labelDot| > 1 && labelDot[|labelDot| - 1] == '.' && '.' !in labelDot[..|labelDot| - 1]
  }

  /** The position of the first dot, or the length if there is none. */
  function FirstDot(s: string): (d: nat)
    ensures d <= |s| && '.' !in s[..d] && (d < |s| ==> s[d] == '.')
  {
    if s == "" || s[0] == '.' then 0
    else
      var d := 1 + FirstDot(s[1..]);
      assert s[..d] == [s[0]] + s[1..][..d - 1];
      d
  }

  predicate HasLabel(requested: string) {
    0 < FirstDot(requested) < |requested|
  }

  function WildcardFor(requested: string): string
    requires HasLabel(requested)
  {
    WILDCARD + requested[FirstDot(requested) + 1..]
  }

  /** The name is a non-empty label without dots, a dot and the suffix. */
  ghost predicate OneLabelOver(requested: string, head: string, suffix: string) {
    head != "" && '.' !in head && requested == head + "." + suffix
  }

  /** What a wildcard entry is: an asterisk in place of exactly one label. */
  lemma WildcardStandsForOneLabel(key: string, requested: string)
    ensures WildcardMatches(key, requested) <==>
            |key| >= 2 && key[..2] == "*." && exists head :: OneLabelOver(requested, head, key[2..])
  {
    if WildcardMatches(key, requested) {
      var cut := |requested| - (|key| - 2);
      assert requested == requested[..cut - 1] + "." + key[2..];
      assert requested[..cut][..cut - 1] == requested[..cut - 1];
      assert OneLabelOver(requested, requested[..cut - 1], key[2..]);
    }
    if |key| >= 2 && key[..2] == "*." {
      if head :| OneLabelOver(requested, head, key[2..]) {
        assert requested[|head| + 1..] == key[2..];
        assert requested[..|head| + 1] == head + ".";
        assert (head + ".")[..|head|] == head;
      }
    }
  }

  lemma FirstDotIsUnique(s: string, d: nat)
    requires d < |s| && s[d] == '.' && '.' !in s[..d]
    ensures FirstDot(s) == d
  {
  }

  /** One key at most can match: the name with its first label starred. */
  lemma OnlyOneWildcardMatches(key: string, requested: string)
    ensures WildcardMatches(key, requested) <==> HasLabel(requested) && key == WildcardFor(requested)
  {
    if WildcardMatches(key, requested) {
      var d := |requested| - (|key| - 2) - 1;
      assert requested[..d + 1][..d] == requested[..d];
      FirstDotIsUnique(requested, d);
      assert key == key[..2] + key[2..];
    }
    if HasLabel(requested) && key == WildcardFor(requested) {
      var d := FirstDot(requested);
      var suffix := key[2..];
      assert suffix == requested[d + 1..];
      var labelDot := requested[..|requested| - |suffix|];
      assert labelDot == requested[..d + 1] && labelDot[..d] == requested[..d];
    }
  }

  /** At most two lookups decide the answer. */
  function Resolve<V>(entries: map<string, V>, requested: string, strict: bool, default: Option<V>): Option<V> {
    if requested in entries then Some(entries[requested])
    else if HasLabel(requested) && WildcardFor(requested) in entries then Some(entries[WildcardFor(requested)])
    else if strict then None
    else default
  }

  /** The scan over the keys, in whatever order they come, is those lookups. */
  method MatchSni<V>(entries: map<string, V>, keys: seq<string>, requested: string, strict: bool, default: Option<V>)
    returns (r: Option<V>)
    requires forall k :: k in keys <==> k in entries
    ensures r == Resolve(entries, requested, strict, default)
    ensures requested in entries ==> r == Some(entries[requested])
    ensures requested !in entries ==> forall k :: k in entries && WildcardMatches(k, requested) ==> r == Some(entries[k])
    ensures requested !in entries && (forall k :: k in entries ==> !WildcardMatches(k, requested)) ==>
            r == if strict then None else default
  {
    forall k | k in entries && WildcardMatches(k, requested)
      ensures HasLabel(requested) && k == WildcardFor(requested)
    {
      OnlyOneWildcardMatches(k, requested);
    }
    if requested in entries {
      return Some(entries[requested]);
    }
    for i := 0 to |keys|
      invariant forall k :: 0 <= k < i ==> !WildcardMatches(keys[k], requested)
    {
      OnlyOneWildcardMatches(keys[i], requested);
      if WildcardMatches(keys[i], requested) {
        return Some(entries[keys[i]]);
      }
    }
    if HasLabel(requested) {
      OnlyOneWildcardMatches(WildcardFor(requested), requested);
    }
    return if strict then None else default;
  }

  datatype Resolver<V> = Resolver(entries: map<string, V>, default: Option<V>, strict: bool)

  /** A resolver over a map of names has no default certificate. */
  function WithSniMap<V>(entries: map<string, V>): Resolver<V> {
    Resolver(entries, None, false)
  }

  /** Without a server name only the default can answer. */
  function ResolveSni<V>(resolver: Resolver<V>, sni: Option<string>): Option<V> {
    match sni
    case Some(name) => Resolve(resolver.entries, name, resolver.strict, resolver.default)
    case None => if resolver.strict then None else resolver.default
  }

  method Lookup<V>(resolver: Resolver<V>, keys: seq<string>, sni: Option<string>) returns (r: Option<V>)
    requires forall k :: k in keys <==> k in resolver.entries
    ensures r == ResolveSni(resolver, sni)
    ensures sni.Some? && sni.value in resolver.entries ==> r == Some(resolver.entries[sni.value])
    ensures sni.Some? && sni.value !in resolver.entries ==>
            forall k :: k in resolver.entries && WildcardMatches(k, sni.value) ==> r == Some(resolver.entries[k])
    ensures sni.None? || (sni.value !in resolver.entries && forall k :: k in resolver.entries ==> !WildcardMatches(k, sni.value))
            ==> r == if resolver.strict then None else resolver.default
  {
    match sni {
      case Some(name) =>
        r := MatchSni(resolver.entries, keys, name, resolver.strict, resolver.default);
      case None =>
        r := if resolver.strict then None else resolver.default;
    }
  }

  // ── The entry under the empty name ────────────────────────────────────────

  /** No entry is for this request: neither the name nor its wildcard. */
  predicate Unmatched<V>(entries: map<string, V>, sni: Option<string>) {
    sni.Some? && sni.value != "" ==>
      sni.value !in entries && !(HasLabel(sni.value) && WildcardFor(sni.value) in entries)
  }

  /** An entry under the empty name is documented as a default. It is none: of a
      resolver built from a map it answers, among the requests no other entry is
      for, exactly the request for the empty name itself. */
  lemma EmptyNameIsNoDefault<V>(entries: map<string, V>, strict: bool, sni: Option<string>)
    requires "" in entries && Unmatched(entries, sni)
    ensures ResolveSni(WithSniMap(entries).(strict := strict), sni) == Some(entries[""]) <==> sni == Some("")
  {
  }

  /** For every other request it could as well be absent. */
  lemma EmptyNameIsIgnored<V>(resolver: Resolver<V>, sni: Option<string>)
    requires sni != Some("")
    ensures ResolveSni(resolver, sni) == ResolveSni(resolver.(entries := resolver.entries - {""}), sni)
  {
    if sni.Some? && HasLabel(sni.value) {
      assert WildcardFor(sni.value) != "";
    }
  }

  /** A resolver with that entry alone has no certificate for a name, or for a
      client that sends none. */
  lemma EmptyNameExample<V>(v: V)
    ensures ResolveSni(WithSniMap(map["" := v]), Some("a.b")) == None
    ensures ResolveSni(WithSniMap(map["" := v]), None) == None
  {
    EmptyNameIsIgnored(WithSniMap(map["" := v]), Some("a.b"));
  }
}
