/** The intermediate certificate cache: a bounded store keyed by certificate
    fingerprint that forgets the least recently used entry. Insertion and `touch`
    promote an entry, plain lookups do not. */
module LruCache {
  import opened Bytes

  type Cert = ByteString

  /** The recency order, most recent first, and the stored certificates. */
  datatype Cache = Cache(order: seq<Fingerprint>, certs: map<Fingerprint, Cert>)

  const EMPTY := Cache([], map[])

  function Without(s: seq<Fingerprint>, x: Fingerprint): seq<Fingerprint> {
    if s == [] then []
    else if s[0] == x then Without(s[1..], x)
    else [s[0]] + Without(s[1..], x)
  }

  function Promote(s: seq<Fingerprint>, x: Fingerprint): seq<Fingerprint> {
    [x] + Without(s, x)
  }

  /** Insert or overwrite, promote, and evict the oldest entry if full. */
  function Put(c: Cache, x: Fingerprint, cert: Cert, capacity: nat): Cache
    requires capacity > 0
  {
    if x in c.order then Cache(Promote(c.order, x), c.certs[x := cert])
    else if |c.order| < capacity then Cache([x] + c.order, c.certs[x := cert])
    else var last := |c.order| - 1;
         Cache([x] + c.order[..last], (c.certs - {c.order[last]})[x := cert])
  }

  function Touch(c: Cache, x: Fingerprint): Cache {
    if x in c.order then c.(order := Promote(c.order, x)) else c
  }

  datatype Op = Insert(cert: Cert) | Touched(key: Fingerprint) | Get(key: Fingerprint) | Contains(key: Fingerprint) | Clear

  function Step(c: Cache, op: Op, capacity: nat, digest: Cert -> Fingerprint): Cache
    requires capacity > 0
  {
    match op
    case Insert(cert) => Put(c, digest(cert), cert, capacity)
    case Touched(x) => Touch(c, x)
    case Get(_) => c
    case Contains(_) => c
    case Clear => EMPTY
  }

  /** The cache after the first `n` operations. */
  function After(ops: seq<Op>, n: nat, capacity: nat, digest: Cert -> Fingerprint): Cache
    requires capacity > 0 && n <= |ops|
  {
    if n == 0 then EMPTY else Step(After(ops, n - 1, capacity, digest), ops[n - 1], capacity, digest)
  }

  // ── Sequences without repetition ──────────────────────────────────────────

  function Take(s: seq<Fingerprint>, n: nat): seq<Fingerprint> {
    s[..Min(n, |s|)]
  }

  lemma {:induction false} WithoutMembers(s: seq<Fingerprint>, x: Fingerprint)
    ensures forall y :: y in Without(s, x) <==> y in s && y != x
  {
    if s == [] {
    } else {
      assert s == [s[0]] + s[1..];
      WithoutMembers(s[1..], x);
    }
  }

  lemma {:induction false} WithoutAbsent(s: seq<Fingerprint>, x: Fingerprint)
    requires x !in s
    ensures Without(s, x) == s
  {
    if s == [] {
    } else {
      WithoutAbsent(s[1..], x);
    }
  }

  lemma {:induction false} WithoutPresent(s: seq<Fingerprint>, x: Fingerprint)
    requires NoDuplicates(s) && x in s
    ensures |Without(s, x)| == |s| - 1
  {
    if s[0] == x {
      WithoutAbsent(s[1..], x);
    } else {
      WithoutPresent(s[1..], x);
    }
  }

  lemma ConsNoDuplicates(x: Fingerprint, s: seq<Fingerprint>)
    requires NoDuplicates(s) && x !in s
    ensures NoDuplicates([x] + s)
  {
  }

  lemma {:induction false} WithoutNoDuplicates(s: seq<Fingerprint>, x: Fingerprint)
    requires NoDuplicates(s)
    ensures NoDuplicates(Without(s, x))
  {
    if s == [] {
    } else {
      WithoutNoDuplicates(s[1..], x);
      if s[0] != x {
        WithoutMembers(s[1..], x);
        ConsNoDuplicates(s[0], Without(s[1..], x));
      }
    }
  }

  /** Promotion keeps a list free of repetitions and its members otherwise. */
  lemma PromoteFacts(s: seq<Fingerprint>, x: Fingerprint)
    requires NoDuplicates(s)
    ensures NoDuplicates(Promote(s, x))
    ensures Elements(Promote(s, x)) == Elements(s) + {x}
    ensures |Promote(s, x)| == if x in s then |s| else |s| + 1
  {
    WithoutMembers(s, x);
    WithoutNoDuplicates(s, x);
    ConsNoDuplicates(x, Without(s, x));
    if x in s {
      WithoutPresent(s, x);
    } else {
      WithoutAbsent(s, x);
    }
    hide Without, NoDuplicates;
  }

  lemma {:induction false} WithoutJoins(a: seq<Fingerprint>, b: seq<Fingerprint>, x: Fingerprint)
    ensures Without(a + b, x) == Without(a, x) + Without(b, x)
  {
    if a == [] {
      assert a + b == b;
    } else {
      assert (a + b)[1..] == a[1..] + b;
      WithoutJoins(a[1..], b, x);
    }
  }

  /** Promoting in a list and then cutting it is promoting in the cut list. */
  lemma PromoteThenTake(s: seq<Fingerprint>, x: Fingerprint, capacity: nat)
    requires capacity > 0 && NoDuplicates(s)
    ensures var c := Take(s, capacity);
      Take(Promote(s, x), capacity) ==
        if x in c then Promote(c, x)
        else if |c| < capacity then [x] + c
        else [x] + c[..|c| - 1]
  {
    var c := Take(s, capacity);
    var rest := s[|c|..];
    assert s == c + rest;
    WithoutJoins(c, rest, x);
    if x in c {
      assert x !in rest;
      WithoutPresent(c, x);
      WithoutAbsent(rest, x);
    } else {
      WithoutAbsent(c, x);
    }
    hide Without, NoDuplicates;
  }

  // ── The bounded cache refines an unbounded recency list ───────────────────

  /** The fingerprints inserted or successfully touched since the last clear, in
      order of use. */
  ghost function Uses(ops: seq<Op>, n: nat, capacity: nat, digest: Cert -> Fingerprint): seq<Fingerprint>
    requires capacity > 0 && n <= |ops|
  {
    if n == 0 then [] else
      var before := Uses(ops, n - 1, capacity, digest);
      match ops[n - 1]
      case Insert(cert) => before + [digest(cert)]
      case Touched(x) => if x in After(ops, n - 1, capacity, digest).order then before + [x] else before
      case Get(_) => before
      case Contains(_) => before
      case Clear => []
  }

  /** Every fingerprint ever used, the latest use first. */
  ghost function Recent(uses: seq<Fingerprint>): seq<Fingerprint> {
    if uses == [] then [] else Promote(Recent(uses[..|uses| - 1]), uses[|uses| - 1])
  }

  lemma {:induction false} RecentFacts(uses: seq<Fingerprint>)
    ensures NoDuplicates(Recent(uses))
    ensures forall x :: x in Recent(uses) <==> x in uses
  {
    if uses == [] {
    } else {
      var before, x := uses[..|uses| - 1], uses[|uses| - 1];
      assert uses == before + [x];
      RecentFacts(before);
      PromoteFacts(Recent(before), x);
      forall y ensures y in Recent(uses) <==> y in uses {
        assert y in Recent(uses) <==> y in Elements(Promote(Recent(before), x));
      }
    }
  }

  /** After every run the cache order is the first `capacity` entries of the
      unbounded recency list of its own uses. */
  lemma {:induction false} CacheIsRecentPrefix(ops: seq<Op>, n: nat, capacity: nat, digest: Cert -> Fingerprint)
    requires capacity > 0 && n <= |ops|
    ensures After(ops, n, capacity, digest).order == Take(Recent(Uses(ops, n, capacity, digest)), capacity)
  {
    if n == 0 {
    } else {
      hide NoDuplicates, Put, Touch, Promote;
      CacheIsRecentPrefix(ops, n - 1, capacity, digest);
      var c, before := After(ops, n - 1, capacity, digest), Uses(ops, n - 1, capacity, digest);
      RecentFacts(before);
      match ops[n - 1] {
        case Insert(cert) =>
          assert (before + [digest(cert)])[..|before|] == before;
          PutPromotes(c, Recent(before), digest(cert), cert, capacity);
        case Touched(x) =>
          assert (before + [x])[..|before|] == before;
          TouchPromotes(c, Recent(before), x, capacity);
        case _ =>
      }
    }
  }

  lemma PutPromotes(c: Cache, s: seq<Fingerprint>, x: Fingerprint, cert: Cert, capacity: nat)
    requires capacity > 0 && NoDuplicates(s) && c.order == Take(s, capacity)
    ensures Put(c, x, cert, capacity).order == Take(Promote(s, x), capacity)
  {
    PromoteThenTake(s, x, capacity);
  }

  lemma TouchPromotes(c: Cache, s: seq<Fingerprint>, x: Fingerprint, capacity: nat)
    requires capacity > 0 && NoDuplicates(s) && c.order == Take(s, capacity)
    ensures x in c.order ==> Touch(c, x).order == Take(Promote(s, x), capacity)
  {
    PromoteThenTake(s, x, capacity);
  }

  /** The fingerprints used since `x` was last used. */
  ghost function UsedSince(uses: seq<Fingerprint>, x: Fingerprint): set<Fingerprint> {
    if uses == [] || uses[|uses| - 1] == x then {}
    else UsedSince(uses[..|uses| - 1], x) + {uses[|uses| - 1]}
  }

  ghost function Ahead(s: seq<Fingerprint>, x: Fingerprint): set<Fingerprint> {
    if s == [] || s[0] == x then {} else {s[0]} + Ahead(s[1..], x)
  }

  lemma {:induction false} AheadWithout(s: seq<Fingerprint>, x: Fingerprint, y: Fingerprint)
    requires x != y
    ensures Ahead(Without(s, x), y) == Ahead(s, y) - {x}
  {
    if s == [] {
    } else {
      AheadWithout(s[1..], x, y);
    }
  }

  lemma {:induction false} AheadIsUsedSince(uses: seq<Fingerprint>, x: Fingerprint)
    requires x in uses
    ensures Ahead(Recent(uses), x) == UsedSince(uses, x)
  {
    var before, y := uses[..|uses| - 1], uses[|uses| - 1];
    assert uses == before + [y];
    if x != y {
      AheadIsUsedSince(before, x);
      AheadWithout(Recent(before), y, x);
      assert Promote(Recent(before), y)[1..] == Without(Recent(before), y);
    }
  }

  lemma {:induction false} AheadAreElements(s: seq<Fingerprint>, x: Fingerprint)
    ensures forall y :: y in Ahead(s, x) ==> y in s
  {
    if s == [] {
    } else {
      AheadAreElements(s[1..], x);
    }
  }

  /** As many fingerprints are ahead of a position as its index says. */
  lemma {:induction false} AheadCounts(s: seq<Fingerprint>, i: nat)
    requires NoDuplicates(s) && i < |s|
    ensures |Ahead(s, s[i])| == i
  {
    if i == 0 {
    } else {
      var t := s[1..];
      assert t[i - 1] == s[i];
      AheadAreElements(t, s[i]);
      assert s[0] !in t;
      assert Ahead(s, s[i]) == {s[0]} + Ahead(t, s[i]);
      AheadCounts(t, i - 1);
    }
  }

  lemma TakenExactlyWhenFewAhead(s: seq<Fingerprint>, x: Fingerprint, n: nat)
    requires NoDuplicates(s) && x in s
    ensures x in Take(s, n) <==> |Ahead(s, x)| < n
  {
    var i :| 0 <= i < |s| && s[i] == x;
    AheadCounts(s, i);
    hide Ahead;
    if i < n {
      assert Take(s, n)[i] == x;
    }
    if x in Take(s, n) {
      var j :| 0 <= j < |Take(s, n)| && Take(s, n)[j] == x;
      assert s[j] == x;
    }
  }

  /** A certificate is cached exactly when it was used since the last clear and
      fewer than `capacity` other fingerprints were used after it. */
  lemma CachedExactlyWhenRecentlyUsed(ops: seq<Op>, n: nat, capacity: nat, digest: Cert -> Fingerprint, x: Fingerprint)
    requires capacity > 0 && n <= |ops|
    ensures var uses := Uses(ops, n, capacity, digest);
            x in After(ops, n, capacity, digest).order <==> x in uses && |UsedSince(uses, x)| < capacity
  {
    var uses := Uses(ops, n, capacity, digest);
    CacheIsRecentPrefix(ops, n, capacity, digest);
    RecentFacts(uses);
    if x in uses {
      AheadIsUsedSince(uses, x);
      TakenExactlyWhenFewAhead(Recent(uses), x, capacity);
    }
  }

  // ── Stored certificates ───────────────────────────────────────────────────

  /** The last certificate inserted under each fingerprint since the last clear,
      whatever the capacity. */
  ghost function Latest(ops: seq<Op>, n: nat, digest: Cert -> Fingerprint): map<Fingerprint, Cert>
    requires n <= |ops|
  {
    if n == 0 then map[] else
      match ops[n - 1]
      case Insert(cert) => Latest(ops, n - 1, digest)[digest(cert) := cert]
      case Clear => map[]
      case _ => Latest(ops, n - 1, digest)
  }

  /** One entry per fingerprint in the order, and no more than the capacity. */
  ghost predicate Consistent(c: Cache, capacity: nat) {
    NoDuplicates(c.order) && |c.order| <= capacity && c.certs.Keys == Elements(c.order)
  }

  ghost predicate Stores(c: Cache, x: Fingerprint, latest: map<Fingerprint, Cert>, digest: Cert -> Fingerprint) {
    x in c.certs && x in latest && c.certs[x] == latest[x] && digest(c.certs[x]) == x
  }

  lemma {:induction false} CacheIsConsistent(ops: seq<Op>, n: nat, capacity: nat, digest: Cert -> Fingerprint)
    requires capacity > 0 && n <= |ops|
    ensures Consistent(After(ops, n, capacity, digest), capacity)
  {
    if n == 0 {
      EmptyHasNoDuplicates();
    } else {
      CacheIsConsistent(ops, n - 1, capacity, digest);
      var c := After(ops, n - 1, capacity, digest);
      hide NoDuplicates, Put, Touch;
      match ops[n - 1] {
        case Insert(cert) => PutKeepsKeys(c, digest(cert), cert, capacity);
        case Touched(x) => TouchKeepsKeys(c, x);
        case Clear => EmptyHasNoDuplicates();
        case _ =>
      }
    }
  }

  /** The cache stores the latest certificate of exactly the fingerprints in its
      order, each of which hashes to its key, and never exceeds its capacity. */
  lemma {:induction false} CacheStoresLatest(ops: seq<Op>, n: nat, capacity: nat, digest: Cert -> Fingerprint)
    requires capacity > 0 && n <= |ops|
    ensures var c := After(ops, n, capacity, digest);
      && Consistent(c, capacity)
      && forall x :: x in c.order ==> Stores(c, x, Latest(ops, n, digest), digest)
  {
    CacheIsConsistent(ops, n, capacity, digest);
    if n == 0 {
    } else {
      CacheStoresLatest(ops, n - 1, capacity, digest);
      var c, latest := After(ops, n - 1, capacity, digest), Latest(ops, n - 1, digest);
      hide Consistent, Put, Touch;
      match ops[n - 1] {
        case Insert(cert) => PutStoresLatest(c, cert, capacity, latest, digest);
        case Touched(x) => TouchStoresLatest(c, x, capacity, latest, digest);
        case _ =>
      }
    }
  }

  lemma PutStoresLatest(c: Cache, cert: Cert, capacity: nat, latest: map<Fingerprint, Cert>, digest: Cert -> Fingerprint)
    requires capacity > 0 && Consistent(c, capacity)
    requires forall x :: x in c.order ==> Stores(c, x, latest, digest)
    ensures var d := Put(c, digest(cert), cert, capacity);
      forall x :: x in d.order ==> Stores(d, x, latest[digest(cert) := cert], digest)
  {
    var d := Put(c, digest(cert), cert, capacity);
    PutKeepsKeys(c, digest(cert), cert, capacity);
    hide Put, NoDuplicates;
    assert forall x :: x in d.order ==> x in Elements(d.order);
  }

  lemma TouchStoresLatest(c: Cache, y: Fingerprint, capacity: nat, latest: map<Fingerprint, Cert>, digest: Cert -> Fingerprint)
    requires Consistent(c, capacity)
    requires forall x :: x in c.order ==> Stores(c, x, latest, digest)
    ensures var d := Touch(c, y);
      forall x :: x in d.order ==> Stores(d, x, latest, digest)
  {
    var d := Touch(c, y);
    TouchKeepsKeys(c, y);
    hide Touch, NoDuplicates;
    assert forall x :: x in d.order ==> x in Elements(d.order);
  }

  lemma EmptyHasNoDuplicates()
    ensures NoDuplicates(EMPTY.order)
  {
  }

  lemma TouchKeepsKeys(c: Cache, x: Fingerprint)
    requires NoDuplicates(c.order)
    ensures var d := Touch(c, x);
      NoDuplicates(d.order) && |d.order| == |c.order| && Elements(d.order) == Elements(c.order) && d.certs == c.certs
  {
    PromoteFacts(c.order, x);
  }

  lemma PutKeepsKeys(c: Cache, x: Fingerprint, cert: Cert, capacity: nat)
    requires capacity > 0 && Consistent(c, capacity)
    ensures var d := Put(c, x, cert, capacity);
      && Consistent(d, capacity)
      && x in d.certs && d.certs[x] == cert
      && forall y :: y in d.order && y != x ==> y in c.order && d.certs[y] == c.certs[y]
  {
    if x in c.order {
      PromoteFacts(c.order, x);
      PromoteKeepsOthers(c, x);
      hide Promote, NoDuplicates;
    } else if |c.order| < capacity {
      ConsNoDuplicates(x, c.order);
      hide NoDuplicates;
    } else {
      EvictKeepsKeys(c, x, cert, capacity);
    }
  }

  lemma PromoteKeepsOthers(c: Cache, x: Fingerprint)
    ensures forall y :: y in Promote(c.order, x) && y != x ==> y in c.order
  {
    WithoutMembers(c.order, x);
  }

  lemma EvictKeepsKeys(c: Cache, x: Fingerprint, cert: Cert, capacity: nat)
    requires capacity > 0 && Consistent(c, capacity) && x !in c.order && |c.order| == capacity
    ensures var d := Put(c, x, cert, capacity);
      && Consistent(d, capacity)
      && x in d.certs && d.certs[x] == cert
      && forall y :: y in d.order && y != x ==> y in c.order && d.certs[y] == c.certs[y]
  {
    var last := |c.order| - 1;
    var kept, victim := c.order[..last], c.order[last];
    assert c.order == kept + [victim];
    assert NoDuplicates(kept) && victim !in kept;
    ConsNoDuplicates(x, kept);
    hide NoDuplicates;
    assert Elements([x] + kept) == Elements(c.order) - {victim} + {x};
  }

  // ── A larger cache holds what a smaller one holds ─────────────────────────

  ghost predicate Subsequence(a: seq<Fingerprint>, b: seq<Fingerprint>) {
    a == [] || (b != [] && (Subsequence(a, b[1..]) || (a[0] == b[0] && Subsequence(a[1..], b[1..]))))
  }

  lemma {:induction false} SubsequenceFacts(a: seq<Fingerprint>, b: seq<Fingerprint>)
    requires Subsequence(a, b)
    ensures |a| <= |b|
    ensures |a| == |b| ==> a == b
    ensures forall x :: x in a ==> x in b
  {
    if a == [] {
    } else {
      if Subsequence(a, b[1..]) {
        SubsequenceFacts(a, b[1..]);
      } else {
        SubsequenceFacts(a[1..], b[1..]);
        assert a == [a[0]] + a[1..] && b == [b[0]] + b[1..];
      }
    }
  }

  lemma SubsequenceCons(x: Fingerprint, a: seq<Fingerprint>, b: seq<Fingerprint>)
    requires Subsequence(a, b)
    ensures Subsequence(a, [x] + b) && Subsequence([x] + a, [x] + b)
  {
    assert ([x] + a)[1..] == a && ([x] + b)[1..] == b;
  }

  lemma {:induction false} SubsequenceWithout(a: seq<Fingerprint>, b: seq<Fingerprint>, x: Fingerprint)
    requires Subsequence(a, b)
    ensures Subsequence(Without(a, x), Without(b, x))
  {
    if a == [] {
    } else {
      if Subsequence(a, b[1..]) {
        SubsequenceWithout(a, b[1..], x);
        SubsequenceCons(b[0], Without(a, x), Without(b[1..], x));
      } else {
        SubsequenceWithout(a[1..], b[1..], x);
        SubsequenceCons(b[0], Without(a[1..], x), Without(b[1..], x));
      }
    }
  }

  /** Dropping the last entry of the smaller list, and of both. */
  lemma {:induction false} SubsequenceDropLast(a: seq<Fingerprint>, b: seq<Fingerprint>)
    requires Subsequence(a, b) && a != []
    ensures b != []
    ensures Subsequence(a[..|a| - 1], b)
    ensures Subsequence(a[..|a| - 1], b[..|b| - 1])
  {
    var c := b[1..];
    if Subsequence(a, c) {
      SubsequenceDropLast(a, c);
      SubsequenceCons(b[0], a[..|a| - 1], c);
      SubsequenceCons(b[0], a[..|a| - 1], c[..|c| - 1]);
      assert [b[0]] + c == b && [b[0]] + c[..|c| - 1] == b[..|b| - 1];
    } else if |a| > 1 {
      var d := a[1..];
      SubsequenceDropLast(d, c);
      SubsequenceCons(b[0], d[..|d| - 1], c);
      SubsequenceCons(b[0], d[..|d| - 1], c[..|c| - 1]);
      assert [b[0]] + c == b && [b[0]] + c[..|c| - 1] == b[..|b| - 1] && [b[0]] + d[..|d| - 1] == a[..|a| - 1];
    }
  }

  /** The smaller order is a subsequence of the larger one and as long as its
      capacity allows. */
  ghost predicate Included(small: seq<Fingerprint>, large: seq<Fingerprint>, m: nat, n: nat) {
    && NoDuplicates(small) && NoDuplicates(large)
    && Subsequence(small, large) && |small| == Min(m, |large|) && |large| <= n
  }

  lemma PutOrderFacts(c: Cache, x: Fingerprint, cert: Cert, capacity: nat)
    requires capacity > 0 && NoDuplicates(c.order) && |c.order| <= capacity
    ensures NoDuplicates(Put(c, x, cert, capacity).order)
    ensures |Put(c, x, cert, capacity).order| == if x in c.order then |c.order| else Min(|c.order| + 1, capacity)
  {
    PromoteFacts(c.order, x);
    if x !in c.order {
      var kept := if |c.order| < capacity then c.order else c.order[..|c.order| - 1];
      ConsNoDuplicates(x, kept);
    }
  }

  /** No eviction from the smaller cache. */
  lemma InsertWithoutEviction(a: seq<Fingerprint>, b: seq<Fingerprint>, x: Fingerprint)
    requires Subsequence(a, b)
    ensures Subsequence(Promote(a, x), Promote(b, x))
  {
    SubsequenceWithout(a, b, x);
    SubsequenceCons(x, Without(a, x), Without(b, x));
  }

  /** The smaller cache is full and misses: it drops its oldest entry, and so may
      the larger one. */
  lemma InsertWithEviction(a: seq<Fingerprint>, b: seq<Fingerprint>, x: Fingerprint)
    requires Subsequence(a, b) && a != [] && x !in a
    ensures b != []
    ensures Subsequence([x] + a[..|a| - 1], Promote(b, x))
    ensures Subsequence([x] + a[..|a| - 1], [x] + b[..|b| - 1])
  {
    WithoutAbsent(a, x);
    SubsequenceWithout(a, b, x);
    SubsequenceDropLast(a, Without(b, x));
    SubsequenceDropLast(a, b);
    hide Subsequence, Without;
    SubsequenceCons(x, a[..|a| - 1], Without(b, x));
    SubsequenceCons(x, a[..|a| - 1], b[..|b| - 1]);
  }

  lemma InsertKeepsSubsequence(small: Cache, large: Cache, m: nat, n: nat, x: Fingerprint, cert: Cert)
    requires 0 < m <= n && Included(small.order, large.order, m, n)
    ensures Subsequence(Put(small, x, cert, m).order, Put(large, x, cert, n).order)
  {
    hide Subsequence, Without, NoDuplicates;
    var a, b := small.order, large.order;
    SubsequenceFacts(a, b);
    if x !in b {
      WithoutAbsent(b, x);
    }
    if x in a || |a| < m {
      if x !in a {
        WithoutAbsent(a, x);
      }
      InsertWithoutEviction(a, b, x);
    } else {
      InsertWithEviction(a, b, x);
    }
  }

  lemma InsertKeepsInclusion(small: Cache, large: Cache, m: nat, n: nat, x: Fingerprint, cert: Cert)
    requires 0 < m <= n && Included(small.order, large.order, m, n)
    ensures Included(Put(small, x, cert, m).order, Put(large, x, cert, n).order, m, n)
  {
    InsertKeepsSubsequence(small, large, m, n, x, cert);
    PutOrderFacts(small, x, cert, m);
    PutOrderFacts(large, x, cert, n);
    SubsequenceFacts(small.order, large.order);
  }

  lemma TouchKeepsInclusion(small: Cache, large: Cache, m: nat, n: nat, x: Fingerprint)
    requires 0 < m <= n && Included(small.order, large.order, m, n)
    ensures Included(Touch(small, x).order, Touch(large, x).order, m, n)
  {
    var a, b := small.order, large.order;
    SubsequenceFacts(a, b);
    PromoteFacts(a, x);
    PromoteFacts(b, x);
    SubsequenceWithout(a, b, x);
    SubsequenceCons(x, Without(a, x), Without(b, x));
    if x !in a {
      WithoutAbsent(a, x);
    }
    hide Subsequence, Without, NoDuplicates;
  }

  /** Under the same operations the smaller cache's entries are, at every step, a
      subsequence of the larger cache's in recency order, although `touch` may
      hit in one and miss in the other. */
  lemma {:induction false} SmallerCacheIsIncluded(ops: seq<Op>, k: nat, m: nat, n: nat, digest: Cert -> Fingerprint)
    requires 0 < m <= n && k <= |ops|
    ensures Included(After(ops, k, m, digest).order, After(ops, k, n, digest).order, m, n)
  {
    if k == 0 {
    } else {
      SmallerCacheIsIncluded(ops, k - 1, m, n, digest);
      var small, large := After(ops, k - 1, m, digest), After(ops, k - 1, n, digest);
      match ops[k - 1] {
        case Insert(cert) => InsertKeepsInclusion(small, large, m, n, digest(cert), cert);
        case Touched(x) => TouchKeepsInclusion(small, large, m, n, x);
        case _ =>
      }
    }
  }

  /** So every hit in the smaller cache is a hit with the same certificate in the
      larger one. */
  lemma HitsAreMonotone(ops: seq<Op>, k: nat, m: nat, n: nat, digest: Cert -> Fingerprint, x: Fingerprint)
    requires 0 < m <= n && k <= |ops| && x in After(ops, k, m, digest).certs
    ensures x in After(ops, k, n, digest).certs
    ensures After(ops, k, n, digest).certs[x] == After(ops, k, m, digest).certs[x]
  {
    SmallerCacheIsIncluded(ops, k, m, n, digest);
    SubsequenceFacts(After(ops, k, m, digest).order, After(ops, k, n, digest).order);
    CacheStoresLatest(ops, k, m, digest);
    CacheStoresLatest(ops, k, n, digest);
  }

  // ── The cache object ──────────────────────────────────────────────────────

  lemma {:induction false} AfterIgnoresLater(ops: seq<Op>, op: Op, n: nat, capacity: nat, digest: Cert -> Fingerprint)
    requires capacity > 0 && n <= |ops|
    ensures After(ops + [op], n, capacity, digest) == After(ops, n, capacity, digest)
  {
    if n == 0 {
    } else {
      AfterIgnoresLater(ops, op, n - 1, capacity, digest);
    }
  }

  lemma KeysAreOrdered(ops: seq<Op>, capacity: nat, digest: Cert -> Fingerprint, x: Fingerprint)
    requires capacity > 0
    ensures var c := After(ops, |ops|, capacity, digest);
            NoDuplicates(c.order) && |c.order| <= capacity && (x in c.certs <==> x in c.order)
  {
    CacheStoresLatest(ops, |ops|, capacity, digest);
  }

  class IntermediateCertCache {
    var order: seq<Fingerprint>
    var certs: map<Fingerprint, Cert>
    const capacity: nat
    const digest: Cert -> Fingerprint
    ghost var ops: seq<Op>

    ghost function View(): Cache
      reads this
    {
      Cache(order, certs)
    }

    ghost predicate Valid()
      reads this
    {
      capacity > 0 && View() == After(ops, |ops|, capacity, digest)
    }

    constructor (capacity: nat, digest: Cert -> Fingerprint)
      requires capacity > 0
      ensures Valid() && ops == [] && order == []
      ensures this.capacity == capacity && this.digest == digest
    {
      this.capacity, this.digest := capacity, digest;
      order, certs, ops := [], map[], [];
    }

    method Insert(cert: Cert) returns (x: Fingerprint)
      requires Valid()
      modifies this
      ensures Valid() && ops == old(ops) + [Op.Insert(cert)]
      ensures x == digest(cert) && order != [] && order[0] == x && x in certs && certs[x] == cert
      ensures |order| == if x in old(order) then |old(order)| else Min(|old(order)| + 1, capacity)
    {
      x := digest(cert);
      KeysAreOrdered(ops, capacity, digest, x);
      AfterIgnoresLater(ops, Op.Insert(cert), |ops|, capacity, digest);
      PutOrderFacts(View(), x, cert, capacity);
      hide NoDuplicates, Without;
      ops := ops + [Op.Insert(cert)];
      if x in order {
        order := [x] + Without(order, x);
      } else {
        if |order| == capacity {
          certs := certs - {order[|order| - 1]};
          order := order[..|order| - 1];
        }
        order := [x] + order;
      }
      certs := certs[x := cert];
    }

    /** A plain lookup: finds the latest certificate and promotes nothing. */
    method Get(x: Fingerprint) returns (r: Option<Cert>)
      requires Valid()
      ensures r.Some? <==> x in order
      ensures r.Some? ==> digest(r.value) == x && x in Latest(ops, |ops|, digest) && r.value == Latest(ops, |ops|, digest)[x]
    {
      CacheStoresLatest(ops, |ops|, capacity, digest);
      r := if x in certs then Some(certs[x]) else None;
    }

    method Touch(x: Fingerprint) returns (r: Option<Cert>)
      requires Valid()
      modifies this
      ensures Valid() && ops == old(ops) + [Touched(x)] && certs == old(certs)
      ensures r == (if x in old(certs) then Some(old(certs)[x]) else None)
      ensures order == if r.Some? then Promote(old(order), x) else old(order)
    {
      KeysAreOrdered(ops, capacity, digest, x);
      AfterIgnoresLater(ops, Touched(x), |ops|, capacity, digest);
      hide NoDuplicates, Without;
      ops := ops + [Touched(x)];
      if x in order {
        order := [x] + Without(order, x);
        r := Some(certs[x]);
      } else {
        r := None;
      }
    }

    method Clear()
      requires Valid()
      modifies this
      ensures Valid() && ops == old(ops) + [Op.Clear] && order == [] && certs == map[]
    {
      ops := ops + [Op.Clear];
      order, certs := [], map[];
    }
  }
}
