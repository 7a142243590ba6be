/** The time-windowed single-use guard for session tickets (section 8.1 of
    RFC 8446): a table from ticket fingerprints to the second they were first
    accepted, pruned lazily. Calls are listed in the order in which they take
    the table's lock; each carries the clock reading it made before that. */
module ReplayGuards {
  import opened Bytes

  type Table = map<Fingerprint, nat>

  datatype Verdict = Fresh | Replayed

  function SaturatingSub(a: nat, b: nat): nat {
    if a < b then 0 else a - b
  }

  /** The entries that survive pruning at `now`. */
  function Retain(seen: Table, now: nat, window: nat): Table {
    map k | k in seen && SaturatingSub(now, seen[k]) <= window :: seen[k]
  }

  function VerdictFor(seen: Table, key: Fingerprint, now: nat, window: nat): Verdict {
    if key in Retain(seen, now, window) then Replayed else Fresh
  }

  function Record(seen: Table, key: Fingerprint, now: nat, window: nat): Table {
    var kept := Retain(seen, now, window);
    if key in kept then kept else kept[key := now]
  }

  datatype Call = Call(key: Fingerprint, now: nat)

  function TableAfter(calls: seq<Call>, window: nat): Table {
    if calls == [] then map[]
    else var c := calls[|calls| - 1]; Record(TableAfter(calls[..|calls| - 1], window), c.key, c.now, window)
  }

  function VerdictAt(calls: seq<Call>, window: nat, i: nat): Verdict
    requires i < |calls|
  {
    VerdictFor(TableAfter(calls[..i], window), calls[i].key, calls[i].now, window)
  }

  lemma TableSplits(calls: seq<Call>, window: nat, n: nat)
    requires n < |calls|
    ensures TableAfter(calls[..n + 1], window) ==
            Record(TableAfter(calls[..n], window), calls[n].key, calls[n].now, window)
  {
    assert calls[..n + 1][..n] == calls[..n];
  }

  // ── Single use under a lagging clock ──────────────────────────────────────

  /** No reading is more than `d` seconds behind an earlier one. */
  ghost predicate LagsAtMost(calls: seq<Call>, d: nat) {
    forall i, j :: 0 <= i < j < |calls| ==> calls[i].now <= calls[j].now + d
  }

  /** Call `k` had a reading late enough to prune what call `i` recorded. */
  ghost predicate Outdates(calls: seq<Call>, window: nat, i: nat, k: nat)
    requires i < |calls| && k < |calls|
  {
    calls[k].now > calls[i].now + window
  }

  /** What a fresh call recorded stays in the table until some later reading is
      more than the window ahead of it. */
  lemma {:induction false} RecordSurvives(calls: seq<Call>, window: nat, i: nat, n: nat)
    requires i < n <= |calls| && VerdictAt(calls, window, i) == Fresh
    requires forall k :: i < k < n ==> !Outdates(calls, window, i, k)
    ensures calls[i].key in TableAfter(calls[..n], window)
    ensures TableAfter(calls[..n], window)[calls[i].key] == calls[i].now
  {
    TableSplits(calls, window, n - 1);
    if n > i + 1 {
      RecordSurvives(calls, window, i, n - 1);
      assert !Outdates(calls, window, i, n - 1);
    }
  }

  /** Call `i` accepted the fingerprint of call `n`, and no reading since, that of
      call `n` included, is more than the window ahead of it. */
  ghost predicate Remembered(calls: seq<Call>, window: nat, i: nat, n: nat)
    requires i < n < |calls|
  {
    && VerdictAt(calls, window, i) == Fresh && calls[i].key == calls[n].key
    && forall k :: i < k <= n ==> !Outdates(calls, window, i, k)
  }

  /** Every entry of the table was recorded by a fresh call and outdated by none. */
  lemma {:induction false} EntryHasSource(calls: seq<Call>, window: nat, n: nat, key: Fingerprint) returns (i: nat)
    requires n <= |calls| && key in TableAfter(calls[..n], window)
    ensures i < n && calls[i].key == key && calls[i].now == TableAfter(calls[..n], window)[key]
    ensures VerdictAt(calls, window, i) == Fresh
    ensures forall k :: i < k < n ==> !Outdates(calls, window, i, k)
  {
    assert calls[..0] == [];
    TableSplits(calls, window, n - 1);
    hide TableAfter;
    if key in Retain(TableAfter(calls[..n - 1], window), calls[n - 1].now, window) {
      i := EntryHasSource(calls, window, n - 1, key);
      assert !Outdates(calls, window, i, n - 1);
      hide VerdictAt;
    } else {
      i := n - 1;
    }
  }

  /** The verdict on any run of readings, monotonic or not: a replay is exactly a
      presentation whose acceptance is still remembered. */
  lemma ReplayedExactlyWhenRemembered(calls: seq<Call>, window: nat, n: nat)
    requires n < |calls|
    ensures VerdictAt(calls, window, n) == Replayed <==> exists i :: 0 <= i < n && Remembered(calls, window, i, n)
  {
    if VerdictAt(calls, window, n) == Replayed {
      var i := EntryHasSource(calls, window, n, calls[n].key);
      assert Remembered(calls, window, i, n);
    }
    if i :| 0 <= i < n && Remembered(calls, window, i, n) {
      RecordSurvives(calls, window, i, n);
      assert !Outdates(calls, window, i, n);
    }
  }

  /** Two fresh verdicts for one fingerprint are more than `window - d` seconds
      apart when readings lag at most `d`; a monotonic clock is `d == 0`. */
  lemma FreshVerdictsAreFarApart(calls: seq<Call>, window: nat, d: nat, i: nat, j: nat)
    requires LagsAtMost(calls, d)
    requires i < j < |calls| && calls[i].key == calls[j].key
    requires VerdictAt(calls, window, i) == Fresh && VerdictAt(calls, window, j) == Fresh
    ensures calls[j].now + d > calls[i].now + window
  {
    if forall k :: i < k < j ==> !Outdates(calls, window, i, k) {
      RecordSurvives(calls, window, i, j);
    } else {
      var k :| i < k < j && Outdates(calls, window, i, k);
      assert calls[k].now <= calls[j].now + d;
    }
  }

  /** The bound is exact: for every window and every lag up to the window plus
      one, some run reaches distance `window - d + 1`. */
  lemma LagBoundIsTight(window: nat, d: nat, a: Fingerprint, b: Fingerprint) returns (calls: seq<Call>)
    requires d <= window + 1 && a != b
    ensures LagsAtMost(calls, d) && |calls| == 3
    ensures calls[0].key == a == calls[2].key && calls[2].now + d == calls[0].now + window + 1
    ensures VerdictAt(calls, window, 0) == Fresh && VerdictAt(calls, window, 2) == Fresh
  {
    calls := [Call(a, 0), Call(b, window + 1), Call(a, window + 1 - d)];
    assert calls[..0] == [];
    TableSplits(calls, window, 0);
    TableSplits(calls, window, 1);
    assert TableAfter(calls[..1], window) == map[a := 0];
    assert TableAfter(calls[..2], window) == map[b := window + 1];
  }

  // ── The pruned table refines the full history ─────────────────────────────

  /** Call `i` was accepted for `key`, at most `window` seconds before `now`. */
  ghost predicate AcceptedWithin(calls: seq<Call>, window: nat, i: nat, key: Fingerprint, now: nat)
    requires i < |calls|
  {
    VerdictAt(calls, window, i) == Fresh && calls[i].key == key && now <= calls[i].now + window
  }

  /** The same, in the history before call `n`. */
  ghost predicate InHistory(calls: seq<Call>, window: nat, n: nat, key: Fingerprint, now: nat, at: nat)
    requires n <= |calls|
  {
    exists i :: 0 <= i < n && AcceptedWithin(calls, window, i, key, now) && calls[i].now == at
  }

  /** After every call the table is exactly the accepted fingerprints whose
      acceptance the last reading still covers, with their acceptance times. */
  lemma {:induction false} TableIsRecentHistory(calls: seq<Call>, window: nat, n: nat, key: Fingerprint, at: nat)
    requires LagsAtMost(calls, 0) && 0 < n <= |calls|
    ensures var t := TableAfter(calls[..n], window);
            key in t && t[key] == at <==> InHistory(calls, window, n, key, calls[n - 1].now, at)
    decreases n, 0
  {
    var m := n - 1;
    var now := calls[m].now;
    TableSplits(calls, window, m);
    var before := TableAfter(calls[..m], window);
    var kept := Retain(before, now, window);
    hide TableAfter;
    RetainedIsRecentHistory(calls, window, m, key, at);
    if InHistory(calls, window, n, key, now, at) {
      var i :| 0 <= i < n && AcceptedWithin(calls, window, i, key, now) && calls[i].now == at;
      if i < m {
        assert InHistory(calls, window, m, key, now, at);
      }
    }
    if key == calls[m].key && key !in kept && at == now {
      assert AcceptedWithin(calls, window, m, key, now);
    }
    if InHistory(calls, window, m, key, now, at) {
      var i :| 0 <= i < m && AcceptedWithin(calls, window, i, key, now) && calls[i].now == at;
      assert i < n;
    }
  }

  lemma {:induction false} RetainedIsRecentHistory(calls: seq<Call>, window: nat, m: nat, key: Fingerprint, at: nat)
    requires LagsAtMost(calls, 0) && m < |calls|
    ensures var kept := Retain(TableAfter(calls[..m], window), calls[m].now, window);
            key in kept && kept[key] == at <==> InHistory(calls, window, m, key, calls[m].now, at)
    decreases m, 1
  {
    var now := calls[m].now;
    if m > 0 {
      TableIsRecentHistory(calls, window, m, key, at);
      hide TableAfter;
      if InHistory(calls, window, m, key, calls[m - 1].now, at) && now <= at + window {
        var i :| 0 <= i < m && AcceptedWithin(calls, window, i, key, calls[m - 1].now) && calls[i].now == at;
        assert AcceptedWithin(calls, window, i, key, now);
      }
      if InHistory(calls, window, m, key, now, at) {
        var i :| 0 <= i < m && AcceptedWithin(calls, window, i, key, now) && calls[i].now == at;
        assert calls[i].now <= calls[m - 1].now <= now;
        assert AcceptedWithin(calls, window, i, key, calls[m - 1].now);
      }
    }
  }

  /** With non-decreasing readings a presentation is a replay exactly when the
      full history holds an acceptance of that fingerprint at most `window`
      seconds old. Refused replays leave no trace in that history, so they never
      extend the window. */
  lemma ReplayedExactlyWithinWindow(calls: seq<Call>, window: nat, n: nat)
    requires LagsAtMost(calls, 0) && n < |calls|
    ensures VerdictAt(calls, window, n) == Replayed <==>
            exists i :: 0 <= i < n && AcceptedWithin(calls, window, i, calls[n].key, calls[n].now)
  {
    var key, now := calls[n].key, calls[n].now;
    var kept := Retain(TableAfter(calls[..n], window), now, window);
    if key in kept {
      RetainedIsRecentHistory(calls, window, n, key, kept[key]);
      var i :| 0 <= i < n && AcceptedWithin(calls, window, i, key, now) && calls[i].now == kept[key];
    }
    if i :| 0 <= i < n && AcceptedWithin(calls, window, i, key, now) {
      RetainedIsRecentHistory(calls, window, n, key, calls[i].now);
    }
  }

  // ── The guard object ──────────────────────────────────────────────────────

  class ReplayGuard {
    var seen: Table
    const windowSecs: nat
    const digest: ByteString -> Fingerprint
    ghost var calls: seq<Call>

    ghost predicate Valid()
      reads this
    {
      seen == TableAfter(calls, windowSecs)
    }

    constructor (windowSecs: nat, digest: ByteString -> Fingerprint)
      ensures Valid() && calls == [] && seen == map[]
      ensures this.windowSecs == windowSecs && this.digest == digest
    {
      this.windowSecs := windowSecs;
      this.digest := digest;
      seen := map[];
      calls := [];
    }

    /** One critical section: prune, then look up or insert. */
    method CheckAndRecord(ticket: ByteString, now: nat) returns (v: Verdict)
      requires Valid()
      modifies this
      ensures Valid() && calls == old(calls) + [Call(digest(ticket), now)]
      ensures v == VerdictAt(calls, windowSecs, |calls| - 1)
      ensures seen == Record(old(seen), digest(ticket), now, windowSecs)
      ensures v == Replayed ==> seen == Retain(old(seen), now, windowSecs)
    {
      var key := digest(ticket);
      seen := map k | k in seen && SaturatingSub(now, seen[k]) <= windowSecs :: seen[k];
      if key in seen {
        v := Replayed;
      } else {
        seen := seen[key := now];
        v := Fresh;
      }
      calls := calls + [Call(key, now)];
      assert calls[..|calls| - 1] == old(calls);
    }
  }
}
