/** raw_reviews: the append-only, versioned log of what the sources sent. */
module RawLog {
  import opened Base

  datatype Key = Key(source: string, externalId: string)

  /** What the normalizer of the source makes of a payload; a rating is any number. */
  datatype Normalized = Normalized(author: string, rating: Option<real>, content: string, postedAt: Option<int>)

  /** A review as an adapter hands it over; `norm` is None when its payload cannot be normalised. */
  datatype Incoming = Incoming(key: Key, hash: string, norm: Option<Normalized>, url: string, location: string)

  /** A stored version. Its handle is its index in the log; `tie` is the order of its uuid. */
  datatype Raw = Raw(key: Key, hash: string, norm: Option<Normalized>, url: string, location: string,
                     createdAt: int, tie: int)

  datatype InsertResult = InsertResult(id: nat, inserted: bool)

  /** ORDER BY created_at DESC, id DESC */
  predicate Newer(a: Raw, b: Raw) {
    a.createdAt > b.createdAt || (a.createdAt == b.createdAt && a.tie > b.tie)
  }

  predicate Visible(r: Raw, cutoff: Option<int>) {
    cutoff.Some? ==> r.createdAt < cutoff.value
  }

  /** The newest version of `k` among the rows created before `cutoff`. */
  function LatestBefore(log: seq<Raw>, k: Key, cutoff: Option<int>): (r: Option<nat>)
    ensures r.Some? ==> r.value < |log| && log[r.value].key == k
  {
    if log == [] then None
    else
      var n := |log| - 1;
      var before := LatestBefore(log[..n], k, cutoff);
      if log[n].key != k || !Visible(log[n], cutoff) then before
      else if before.None? || Newer(log[n], log[before.value]) then Some(n)
      else before
  }

  function Latest(log: seq<Raw>, k: Key): Option<nat> {
    LatestBefore(log, k, None)
  }

  /**
   * The chosen row is visible and no visible row of the key exceeds it in (created_at, id); None means there is no
   * visible row.
   */
  lemma {:induction false} LatestIsNewest(log: seq<Raw>, k: Key, cutoff: Option<int>, j: nat)
    requires j < |log| && log[j].key == k && (cutoff.Some? ==> log[j].createdAt < cutoff.value)
    ensures var r := LatestBefore(log, k, cutoff);
            && r.Some? && (cutoff.Some? ==> log[r.value].createdAt < cutoff.value)
            && log[j].createdAt <= log[r.value].createdAt
            && (log[j].createdAt == log[r.value].createdAt ==> log[j].tie <= log[r.value].tie)
  {
    var n := |log| - 1;
    var before := LatestBefore(log[..n], k, cutoff);
    if j < n {
      LatestIsNewest(log[..n], k, cutoff, j);
    } else if before.Some? {
      LatestIsVisible(log[..n], k, cutoff);
    }
  }

  lemma {:induction false} LatestIsVisible(log: seq<Raw>, k: Key, cutoff: Option<int>)
    ensures var r := LatestBefore(log, k, cutoff); r.Some? ==> Visible(log[r.value], cutoff)
  {
    if log != [] {
      LatestIsVisible(log[..|log| - 1], k, cutoff);
    }
  }

  function Row(r: Incoming, now: int, tie: int): Raw {
    Raw(r.key, r.hash, r.norm, r.url, r.location, now, tie)
  }

  /** One turn of the insertion loop: skip only what equals the newest version. */
  function InsertOne(log: seq<Raw>, r: Incoming, now: int, tie: int): (res: (seq<Raw>, InsertResult))
    ensures log <= res.0
  {
    var latest := Latest(log, r.key);
    if latest.Some? && log[latest.value].hash == r.hash then (log, InsertResult(latest.value, false))
    else (log + [Row(r, now, tie)], InsertResult(|log|, true))
  }

  /** One transaction: every row carries the transaction's start time and a fresh uuid. */
  datatype Batch = Batch(reviews: seq<Incoming>, now: int, ties: seq<int>) {
    predicate Valid() { |reviews| == |ties| }
  }

  function InsertBatch(log: seq<Raw>, reviews: seq<Incoming>, now: int, ties: seq<int>)
    : (res: (seq<Raw>, seq<InsertResult>))
    requires |reviews| == |ties|
    ensures |res.1| == |reviews|
    ensures log <= res.0
  {
    if reviews == [] then (log, [])
    else
      var n := |reviews| - 1;
      var before := InsertBatch(log, reviews[..n], now, ties[..n]);
      var one := InsertOne(before.0, reviews[n], now, ties[n]);
      (one.0, before.1 + [one.1])
  }

  predicate AllValid(batches: seq<Batch>) {
    forall i | 0 <= i < |batches| :: batches[i].Valid()
  }

  /** The log after a history of committed batches. */
  function LogOf(batches: seq<Batch>): seq<Raw>
    requires AllValid(batches)
  {
    if batches == [] then []
    else
      var n := |batches| - 1;
      InsertBatch(LogOf(batches[..n]), batches[n].reviews, batches[n].now, batches[n].ties).0
  }

  /** Rows of one key were inserted in the order their (created_at, id) gives them. */
  ghost predicate InOrder(log: seq<Raw>) {
    forall i, j | 0 <= i < j < |log| && log[i].key == log[j].key :: Newer(log[j], log[i])
  }

  lemma InOrderPrefix(log: seq<Raw>, longer: seq<Raw>)
    requires log <= longer && InOrder(longer)
    ensures InOrder(log)
  {
    forall i, j | 0 <= i < j < |log| && log[i].key == log[j].key ensures Newer(log[j], log[i]) {
      assert log[i] == longer[i] && log[j] == longer[j];
    }
  }

  // ---- Consecutive dedupe refines "collapse equal neighbours" ----

  /** The versions of one key, oldest first. */
  function KeyHashes(log: seq<Raw>, k: Key): seq<string> {
    if log == [] then []
    else
      var n := |log| - 1;
      KeyHashes(log[..n], k) + if log[n].key == k then [log[n].hash] else []
  }

  function Observed(reviews: seq<Incoming>, k: Key): seq<string> {
    if reviews == [] then []
    else
      var n := |reviews| - 1;
      Observed(reviews[..n], k) + if reviews[n].key == k then [reviews[n].hash] else []
  }

  function ObservedAll(batches: seq<Batch>, k: Key): seq<string> {
    if batches == [] then []
    else
      var n := |batches| - 1;
      ObservedAll(batches[..n], k) + Observed(batches[n].reviews, k)
  }

  /** Runs of equal neighbours shrink to one element; read from the front, unlike the insertion loop. */
  function Collapse(s: seq<string>): seq<string> {
    if |s| < 2 then s
    else if s[0] == s[1] then Collapse(s[1..])
    else [s[0]] + Collapse(s[1..])
  }

  lemma {:induction false} CollapseSnoc(s: seq<string>, h: string)
    ensures s != [] ==> Collapse(s) != [] && Collapse(s)[|Collapse(s)| - 1] == s[|s| - 1]
    ensures s == [] ==> Collapse(s) == []
    ensures Collapse(s + [h]) == if s != [] && s[|s| - 1] == h then Collapse(s) else Collapse(s) + [h]
  {
    if |s| == 1 {
      assert (s + [h])[1..] == [h];
    } else if |s| >= 2 {
      CollapseSnoc(s[1..], h);
      assert (s + [h])[1..] == s[1..] + [h];
    }
  }

  /** In an ordered log the newest row of a key is the last one inserted. */
  lemma {:induction false} LatestIsLast(log: seq<Raw>, k: Key)
    requires InOrder(log)
    ensures Latest(log, k).None? <==> KeyHashes(log, k) == []
    ensures Latest(log, k).Some? ==>
              var i := Latest(log, k).value;
              && KeyHashes(log, k)[|KeyHashes(log, k)| - 1] == log[i].hash
              && forall j | i < j < |log| :: log[j].key != k
  {
    if log != [] {
      var n := |log| - 1;
      LatestIsLast(log[..n], k);
      if log[n].key == k && Latest(log[..n], k).Some? {
        assert Newer(log[n], log[Latest(log[..n], k).value]);
      }
    }
  }

  /** One insertion collapses exactly when the newest row and the last inserted row agree on the hash. */
  lemma InsertCollapsesExactly(log: seq<Raw>, r: Incoming, now: int, tie: int, seen: seq<string>)
    requires KeyHashes(log, r.key) == Collapse(seen)
    ensures var hashes := KeyHashes(log, r.key);
            var latest := Latest(log, r.key);
            KeyHashes(InsertOne(log, r, now, tie).0, r.key) == Collapse(seen + [r.hash])
            <==> ((latest.Some? && log[latest.value].hash == r.hash)
                  <==> (hashes != [] && hashes[|hashes| - 1] == r.hash))
  {
    CollapseSnoc(seen, r.hash);
    var after := InsertOne(log, r, now, tie).0;
    if after != log {
      assert after[..|log|] == log;
    }
  }

  lemma InsertCollapses(log: seq<Raw>, r: Incoming, now: int, tie: int, k: Key, seen: seq<string>)
    requires InOrder(log)
    requires KeyHashes(log, k) == Collapse(seen)
    ensures KeyHashes(InsertOne(log, r, now, tie).0, k) == Collapse(seen + if r.key == k then [r.hash] else [])
  {
    if r.key == k {
      LatestIsLast(log, k);
      InsertCollapsesExactly(log, r, now, tie, seen);
    } else {
      assert seen + [] == seen;
      assert (log + [Row(r, now, tie)])[..|log|] == log;
    }
  }

  lemma {:induction false} BatchKeyHashes(log: seq<Raw>, reviews: seq<Incoming>, now: int, ties: seq<int>, k: Key,
                                          seen: seq<string>)
    requires |reviews| == |ties|
    requires InOrder(InsertBatch(log, reviews, now, ties).0)
    requires KeyHashes(log, k) == Collapse(seen)
    ensures KeyHashes(InsertBatch(log, reviews, now, ties).0, k) == Collapse(seen + Observed(reviews, k))
  {
    hide InOrder, InsertOne, KeyHashes, Collapse;
    if reviews == [] {
      assert seen + [] == seen;
    } else {
      var n := |reviews| - 1;
      var before := InsertBatch(log, reviews[..n], now, ties[..n]).0;
      InOrderPrefix(before, InsertBatch(log, reviews, now, ties).0);
      BatchKeyHashes(log, reviews[..n], now, ties[..n], k, seen);
      var s := seen + Observed(reviews[..n], k);
      var last := if reviews[n].key == k then [reviews[n].hash] else [];
      InsertCollapses(before, reviews[n], now, ties[n], k, s);
      assert s + last == seen + Observed(reviews, k);
    }
  }

  /** Whatever the batches, the log of a key is the observed sequence with consecutive repeats removed. */
  lemma {:induction false} LogCollapses(batches: seq<Batch>, k: Key)
    requires AllValid(batches)
    requires InOrder(LogOf(batches))
    ensures KeyHashes(LogOf(batches), k) == Collapse(ObservedAll(batches, k))
  {
    if batches != [] {
      var n := |batches| - 1;
      var before := LogOf(batches[..n]);
      var after := LogOf(batches);
      assert before <= after;
      InOrderPrefix(before, after);
      LogCollapses(batches[..n], k);
      BatchKeyHashes(before, batches[n].reviews, batches[n].now, batches[n].ties, k, ObservedAll(batches[..n], k));
    }
  }

  /** A, B, A stays three versions: the edit back to A is not swallowed. */
  lemma RevertIsKept(a: string, b: string)
    requires a != b
    ensures Collapse([a, b, a]) == [a, b, a]
  {
    assert [a, b, a][1..] == [b, a];
    assert [b, a][1..] == [a];
    assert Collapse([a]) == [a];
    assert Collapse([b, a]) == [b, a];
  }

  /** Every returned id names a row of the input's key with the input's hash. */
  lemma {:induction false} ResultsNameTheirRows(log: seq<Raw>, reviews: seq<Incoming>, now: int, ties: seq<int>, i: nat)
    requires |reviews| == |ties| && i < |reviews|
    ensures var (after, results) := InsertBatch(log, reviews, now, ties);
            && results[i].id < |after|
            && after[results[i].id].key == reviews[i].key
            && after[results[i].id].hash == reviews[i].hash
            && (results[i].inserted ==>
                  && results[i].id >= |log|
                  && var a := after[results[i].id];
                     && a.norm == reviews[i].norm && a.url == reviews[i].url && a.location == reviews[i].location
                     && a.createdAt == now && a.tie == ties[i])
  {
    var n := |reviews| - 1;
    if i < n {
      ResultsNameTheirRows(log, reviews[..n], now, ties[..n], i);
    }
  }

  /** Nothing is invented: every new row is the row of some input. */
  lemma {:induction false} NewRowsAreInputs(log: seq<Raw>, reviews: seq<Incoming>, now: int, ties: seq<int>, j: nat)
    returns (i: nat)
    requires |reviews| == |ties| && |log| <= j < |InsertBatch(log, reviews, now, ties).0|
    ensures i < |reviews|
    ensures var (a, r) := (InsertBatch(log, reviews, now, ties).0[j], reviews[i]);
            && a.key == r.key && a.hash == r.hash && a.norm == r.norm && a.url == r.url && a.location == r.location
            && a.createdAt == now && a.tie == ties[i]
  {
    var n := |reviews| - 1;
    if j < |InsertBatch(log, reviews[..n], now, ties[..n]).0| {
      i := NewRowsAreInputs(log, reviews[..n], now, ties[..n], j);
    } else {
      i := n;
    }
  }

  ghost predicate DistinctKeys(reviews: seq<Incoming>) {
    forall i, j | 0 <= i < j < |reviews| :: reviews[i].key != reviews[j].key
  }

  /** Keys outside the batch keep their newest row; keys inside it end with their input's hash. */
  lemma {:induction false} BatchLatest(log: seq<Raw>, reviews: seq<Incoming>, now: int, ties: seq<int>, i: nat)
    requires |reviews| == |ties| && i < |reviews|
    requires DistinctKeys(reviews)
    requires InOrder(InsertBatch(log, reviews, now, ties).0)
    ensures Latest(InsertBatch(log, reviews, now, ties).0, reviews[i].key)
            == Some(InsertBatch(log, reviews, now, ties).1[i].id)
  {
    var n := |reviews| - 1;
    var before := InsertBatch(log, reviews[..n], now, ties[..n]).0;
    var after := InsertBatch(log, reviews, now, ties).0;
    assert before <= after;
    assert after != before ==> after[..|before|] == before;
    if i < n {
      InOrderPrefix(before, after);
      BatchLatest(log, reviews[..n], now, ties[..n], i);
    } else if after != before {
      var prev := Latest(before, reviews[n].key);
      if prev.Some? {
        assert after[prev.value] == before[prev.value];
      }
    }
  }

  /** Sending a batch of distinct keys again adds nothing and names the same rows. */
  lemma {:induction false} RepeatAddsNothing(log: seq<Raw>, reviews: seq<Incoming>, now: int, ties: seq<int>,
                                             now': int, ties': seq<int>, m: nat)
    requires |reviews| == |ties| == |ties'| && m <= |reviews|
    requires DistinctKeys(reviews)
    requires InOrder(InsertBatch(log, reviews, now, ties).0)
    ensures var (after, results) := InsertBatch(log, reviews, now, ties);
            var (again, results') := InsertBatch(after, reviews[..m], now', ties'[..m]);
            && again == after
            && forall i | 0 <= i < m :: results'[i] == InsertResult(results[i].id, false)
    decreases m
  {
    hide InOrder, Latest;
    if m > 0 {
      RepeatAddsNothing(log, reviews, now, ties, now', ties', m - 1);
      BatchLatest(log, reviews, now, ties, m - 1);
      ResultsNameTheirRows(log, reviews, now, ties, m - 1);
      assert reviews[..m][..m - 1] == reviews[..m - 1] && ties'[..m][..m - 1] == ties'[..m - 1];
    }
  }

  /**
   * A transaction that began first but took the lock last inserts a row that is not the newest one:
   * the next sighting of b is compared with a, and b is stored twice in a row.
   */
  lemma LateLockBreaksDedupe(k: Key, a: string, b: string)
    requires a != b
    ensures var first := Row(Incoming(k, a, None, "", ""), 10, 0);
            var late := InsertOne([first], Incoming(k, b, None, "", ""), 5, 1).0;
            var again := InsertOne(late, Incoming(k, b, None, "", ""), 20, 2).0;
            && KeyHashes(again, k) == [a, b, b]
            && Collapse([a, b, b]) == [a, b]
            && !InOrder(again)
  {
    var r0 := Row(Incoming(k, a, None, "", ""), 10, 0);
    var r1 := Row(Incoming(k, b, None, "", ""), 5, 1);
    var r2 := Row(Incoming(k, b, None, "", ""), 20, 2);
    assert [r0][..0] == [];
    assert [r0, r1][..1] == [r0];
    assert [r0, r1, r2][..2] == [r0, r1];
    assert LatestBefore([], k, None) == None;
    assert Latest([r0], k) == Some(0);
    assert Latest([r0, r1], k) == Some(0);
    assert [r0] + [r1] == [r0, r1] && [r0, r1] + [r2] == [r0, r1, r2];
    assert !Newer([r0, r1, r2][1], [r0, r1, r2][0]);
    assert KeyHashes([], k) == [];
    assert KeyHashes([r0], k) == [a];
    assert KeyHashes([r0, r1], k) == [a, b];
    assert [a, b, b][1..] == [b, b];
    assert [b, b][1..] == [b];
    assert Collapse([b]) == [b];
    assert Collapse([b, b]) == [b];
  }
}
