/** What the page cap costs: which reviews a capped fetch loses, that it happens, and that it lasts. */
module PageCap {
  import opened Base
  import opened RawLog
  import opened Remote
  import opened GoogleAdapter
  import opened CrawlJobs
  import opened LaterStarts

  ghost predicate DistinctIds(stored: seq<Item>) {
    forall i, j | 0 <= i < j < |stored| :: stored[i].id != stored[j].id
  }

  // ---- The promise of a fetch, kept by the exact result ----

  lemma StillFetchFacts(view: seq<Item>, since: int, maxRating: nat)
    requires NewestFirst(view)
    ensures var r := StillFetch(view, since, maxRating);
            && since <= r.cursor
            && (r.cursor == since || exists p :: 0 <= p < |view| && view[p].time == r.cursor)
            && (forall y | y in r.reviews :: Wanted(y, since, r.cursor, maxRating) && y in view)
            && SeenUpTo(view, if r.pageCapHit then MAX_ENTRIES else |view|, since, r.cursor, maxRating, r.reviews)
  {
    var r := StillFetch(view, since, maxRating);
    var end := Min(Reach(view, since, 0), MAX_ENTRIES);
    ReachIs(view, since, 0);
    NewestIs(view, 0, end, since);
    forall y | y in r.reviews ensures Wanted(y, since, r.cursor, maxRating) && y in view {
      TakenIs(view, 0, end, maxRating, y);
      var p :| 0 <= p < end && view[0..end][p] == y;
      assert y == view[p];
    }
    forall p | 0 <= p < (if r.pageCapHit then MAX_ENTRIES else |view|) && Wanted(view[p], since, r.cursor, maxRating)
      ensures view[p] in r.reviews
    {
      if p < end {
        TakenIs(view, 0, end, maxRating, view[p]);
        assert view[0..end][p] == view[p];
      }
    }
  }

  lemma StillFetchKeepsPromise(stored: seq<Item>, clock: int, since: int, maxRating: nat)
    requires Clocked(stored, clock) && since <= clock
    ensures var r := StillFetch(Listing(stored), since, maxRating);
            FetchPromise(stored, clock, since, maxRating, r.cursor, r.pageCapHit, r.reviews)
  {
    ViewFacts(stored, clock);
    StillFetchFacts(Listing(stored), since, maxRating);
    var r := StillFetch(Listing(stored), since, maxRating);
    if !r.pageCapHit {
      SeenAllIsComplete(stored, since, r.cursor, maxRating, r.reviews);
    } else {
      CapHitExactly(Listing(stored), since, maxRating);
    }
    HeldOnGrows(stored, 0, r.reviews, [], r.reviews);
    hide StillFetch, Listing, Clocked, SeenUpTo, NewestFirst, DistinctTimes, HeldOn;
  }

  // ---- Which reviews are lost ----

  /** Some entry that the fetch reads can be decoded, so the cursor moves. */
  ghost predicate SomeReadable(view: seq<Item>) {
    exists q :: 0 <= q < MAX_ENTRIES && q < |view| && view[q].readable
  }

  lemma CappedFacts(view: seq<Item>, since: int, maxRating: nat)
    requires StillFetch(view, since, maxRating).pageCapHit
    ensures var r := StillFetch(view, since, maxRating);
            && |view| > MAX_ENTRIES
            && (forall y | y in r.reviews :: y in view[..MAX_ENTRIES])
            && (forall q | 0 <= q < MAX_ENTRIES && view[q].readable :: view[q].time <= r.cursor)
            && (!SomeReadable(view) ==> r.cursor == since)
  {
    var r := StillFetch(view, since, maxRating);
    NewestIs(view, 0, MAX_ENTRIES, since);
    forall y | y in r.reviews ensures y in view[..MAX_ENTRIES] {
      TakenIs(view, 0, MAX_ENTRIES, maxRating, y);
      assert view[0..MAX_ENTRIES] == view[..MAX_ENTRIES];
    }
  }

  /** Every matching entry behind the cut that is newer than `since` already has its row. */
  ghost predicate TailHasRows(w: World, since: int) {
    var view := Listing(w.stored);
    forall p | MAX_ENTRIES <= p < |view| && Matches(view[p], w.maxRating) && view[p].time > since ::
      HasRow(w.raws, w.source, view[p])
  }

  lemma SameIdSameItem(stored: seq<Item>, a: Item, b: Item)
    requires DistinctIds(stored) && a in stored && b in stored && a.id == b.id
    ensures a == b
  {
    var i :| 0 <= i < |stored| && stored[i] == a;
    var j :| 0 <= j < |stored| && stored[j] == b;
  }

  lemma InListing(stored: seq<Item>, x: Item)
    requires DistinctTimes(stored)
    ensures x in stored <==> x in Listing(stored)
  {
    ListingSorted(stored);
    assert x in stored <==> x in Elements(stored);
    assert x in Listing(stored) <==> x in Elements(Listing(stored));
  }

  /** An entry behind the cut has no other way to its row than the one it had before the fetch. */
  lemma TailNotReturned(w: World, since: int, p: nat)
    requires Clocked(w.stored, w.clock) && DistinctIds(w.stored)
    requires StillFetch(Listing(w.stored), since, w.maxRating).pageCapHit
    requires MAX_ENTRIES <= p < |Listing(w.stored)|
    ensures var view := Listing(w.stored);
            forall z | z in StillFetch(view, since, w.maxRating).reviews :: z.id != view[p].id
  {
    var view := Listing(w.stored);
    ViewFacts(w.stored, w.clock);
    CappedFacts(view, since, w.maxRating);
    hide StillFetch, Listing;
    forall z | z in StillFetch(view, since, w.maxRating).reviews ensures z.id != view[p].id {
      var q :| 0 <= q < MAX_ENTRIES && view[..MAX_ENTRIES][q] == z;
      assert z == view[q] && view[q].time > view[p].time;
      InListing(w.stored, z);
      InListing(w.stored, view[p]);
      if z.id == view[p].id {
        SameIdSameItem(w.stored, z, view[p]);
      }
    }
  }

  /**
   * A capped fetch of an unchanging service, on top of a covered cursor, and its insertion: the new cursor is
   * covered exactly when nothing the fetch read could be decoded, or every matching entry behind the cut that
   * is newer than the old cursor already had its row. All of it can be looked up before the fetch.
   */
  lemma CappedCoverageExactly(w: World, x: nat, at: int, ties: seq<int>)
    requires x in w.workers && w.workers[x].Fetched? && |ties| == |w.workers[x].out|
    requires Clocked(w.stored, w.clock) && DistinctIds(w.stored)
    requires CursorGood(w, w.workers[x].since, true)
    requires w.workers[x].capHit
    requires var k := w.workers[x];
             FetchResult(k.out, k.cursor, k.capHit) == StillFetch(Listing(w.stored), k.since, w.maxRating)
    ensures Covered(Next(w, InsertOk(x, at, ties)), w.workers[x].cursor)
            <==> !SomeReadable(Listing(w.stored)) || TailHasRows(w, w.workers[x].since)
  {
    var k := w.workers[x];
    var view := Listing(w.stored);
    ViewFacts(w.stored, w.clock);
    CappedFacts(view, k.since, w.maxRating);
    StillFetchFacts(view, k.since, w.maxRating);
    CoverageAfterInsertExactly(w, x, at, ties);
    hide StillFetch, Listing, Next, Covered, HasRow;
    if !SomeReadable(view) || TailHasRows(w, k.since) {
      forall y | y in w.stored && Wanted(y, ZERO, k.cursor, w.maxRating)
        ensures HasRow(w.raws, w.source, y) || exists z :: z in k.out && z.id == y.id && z.hash == y.hash
      {
        HasRowOrReturned(w, k, y);
      }
    }
    if SomeReadable(view) && !TailHasRows(w, k.since) {
      TailIsLost(w, k);
    }
  }

  lemma HasRowOrReturned(w: World, k: Worker, y: Item)
    requires k.Fetched? && Clocked(w.stored, w.clock) && CursorGood(w, k.since, true)
    requires FetchResult(k.out, k.cursor, true) == StillFetch(Listing(w.stored), k.since, w.maxRating)
    requires !SomeReadable(Listing(w.stored)) || TailHasRows(w, k.since)
    requires y in w.stored && Wanted(y, ZERO, k.cursor, w.maxRating)
    ensures HasRow(w.raws, w.source, y) || y in k.out
  {
    var view := Listing(w.stored);
    ViewFacts(w.stored, w.clock);
    CappedFacts(view, k.since, w.maxRating);
    StillFetchFacts(view, k.since, w.maxRating);
    InListing(w.stored, y);
    hide StillFetch, Listing, HasRow;
    if y.time > k.since {
      var p :| 0 <= p < |view| && view[p] == y;
    }
  }

  lemma TailIsLost(w: World, k: Worker)
    requires k.Fetched? && Clocked(w.stored, w.clock) && DistinctIds(w.stored) && ZERO <= k.since
    requires FetchResult(k.out, k.cursor, true) == StillFetch(Listing(w.stored), k.since, w.maxRating)
    requires SomeReadable(Listing(w.stored)) && !TailHasRows(w, k.since)
    ensures exists y :: y in w.stored && Wanted(y, ZERO, k.cursor, w.maxRating) && !HasRow(w.raws, w.source, y)
                        && forall z | z in k.out :: z.id != y.id
  {
    var view := Listing(w.stored);
    ViewFacts(w.stored, w.clock);
    CappedFacts(view, k.since, w.maxRating);
    var p :| MAX_ENTRIES <= p < |view| && Matches(view[p], w.maxRating) && view[p].time > k.since
             && !HasRow(w.raws, w.source, view[p]);
    var q :| 0 <= q < MAX_ENTRIES && q < |view| && view[q].readable;
    TailNotReturned(w, k.since, p);
    InListing(w.stored, view[p]);
    hide StillFetch, Listing, HasRow;
    assert view[q].time > view[p].time;
    assert Wanted(view[p], ZERO, k.cursor, w.maxRating);
  }

  // ---- The first job of a crowded service ----

  /** The first job, claimed by worker 0, with nothing else going on. */
  function FirstJob(r: FetchResult, at: int, ties: seq<int>): seq<Event> {
    [Schedule(at, None), Load(0, 0), ClaimJob(0, at), FetchOk(0, r.cursor, r.pageCapHit, r.reviews), InsertOk(0, at, ties),
     Succeed(0, at)]
  }

  function FirstWorld(w: World, r: FetchResult, at: int, ties: seq<int>, n: nat): World
    requires n <= 6 && |ties| == |r.reviews|
  {
    var pending := Job(Pending, ZERO, at, None, None, true);
    var running := pending.(status := Running, startedAt := Some(at));
    var after := InsertBatch(w.raws, ToInsert(w.place, r.reviews), at, ties).0;
    World(w.place, w.maxRating, w.stored, w.clock, if n < 5 then w.raws else after,
          if n == 0 then []
          else if n < 3 then [pending]
          else if n < 6 then [running]
          else [FinishedJob(running, Succeeded, r.cursor, at, !r.pageCapHit)],
          match n
          case 2 => map[0 := Loaded(0, ZERO, true)]
          case 3 => map[0 := Owning(0, ZERO, true)]
          case 4 => map[0 := Worker.Fetched(0, ZERO, true, r.cursor, r.pageCapHit, r.reviews)]
          case 5 => map[0 := Stored(0, ZERO, true, r.cursor, r.pageCapHit)]
          case _ => map[])
  }

  lemma FirstStep(w: World, r: FetchResult, at: int, ties: seq<int>, n: nat)
    requires Fresh(w) && n < 6 && |ties| == |r.reviews|
    ensures Next(FirstWorld(w, r, at, ties, n), FirstJob(r, at, ties)[n]) == FirstWorld(w, r, at, ties, n + 1)
  {
    hide InsertBatch, ToInsert;
    if n == 5 {
      assert map[0 := Stored(0, ZERO, true, r.cursor, r.pageCapHit)] - {0} == map[];
    }
  }

  lemma FirstStart(w: World, r: FetchResult, at: int, ties: seq<int>)
    requires Fresh(w) && |ties| == |r.reviews|
    ensures FirstWorld(w, r, at, ties, 0) == w
  {
  }

  lemma {:induction false} FirstRun(w: World, at: int, ties: seq<int>, n: nat)
    requires Fresh(w) && Clocked(w.stored, w.clock) && n <= 6
    requires |ties| == |StillFetch(Listing(w.stored), ZERO, w.maxRating).reviews|
    ensures var r := StillFetch(Listing(w.stored), ZERO, w.maxRating);
            && Exec(w, FirstJob(r, at, ties)[..n]) == FirstWorld(w, r, at, ties, n)
            && AllAllowed(w, FirstJob(r, at, ties)[..n])
  {
    var r := StillFetch(Listing(w.stored), ZERO, w.maxRating);
    hide Next, FirstWorld, StillFetch, Listing, Clocked;
    var trace := FirstJob(r, at, ties);
    if n == 0 {
      FirstStart(w, r, at, ties);
    } else {
      FirstRun(w, at, ties, n - 1);
      FirstStep(w, r, at, ties, n - 1);
      FirstAllowed(w, at, ties, n - 1);
      hide Allowed;
      ExecSnoc(w, trace[..n - 1], trace[n - 1]);
      assert trace[..n] == trace[..n - 1] + [trace[n - 1]];
    }
  }

  lemma FirstAllowed(w: World, at: int, ties: seq<int>, n: nat)
    requires Fresh(w) && Clocked(w.stored, w.clock) && n < 6
    requires |ties| == |StillFetch(Listing(w.stored), ZERO, w.maxRating).reviews|
    ensures var r := StillFetch(Listing(w.stored), ZERO, w.maxRating);
            Allowed(FirstWorld(w, r, at, ties, n), FirstJob(r, at, ties)[n])
  {
    StillFetchKeepsPromise(w.stored, w.clock, ZERO, w.maxRating);
    hide StillFetch, Listing, Clocked, FetchPromise, InsertBatch;
  }

  /**
   * The first job of any service with more entries than a fetch reads, all newer than a missing cursor: it
   * succeeds, and its cursor is covered exactly when nothing it read could be decoded or the tail had its rows.
   */
  lemma FirstJobExactly(w: World, at: int, ties: seq<int>)
    requires Fresh(w) && Clocked(w.stored, w.clock) && DistinctIds(w.stored)
    requires |ties| == |StillFetch(Listing(w.stored), ZERO, w.maxRating).reviews|
    requires StillFetch(Listing(w.stored), ZERO, w.maxRating).pageCapHit
    ensures var r := StillFetch(Listing(w.stored), ZERO, w.maxRating);
            var end := Exec(w, FirstJob(r, at, ties));
            && AllAllowed(w, FirstJob(r, at, ties))
            && end.stored == w.stored && end.maxRating == w.maxRating && end.place == w.place
            && end.workers == map[] && |end.jobs| == 1
            && end.jobs[0].status == Succeeded && end.jobs[0].cursor == r.cursor && !end.jobs[0].clean
            && (Covered(end, r.cursor) <==> !SomeReadable(Listing(w.stored)) || TailHasRows(w, ZERO))
  {
    var r := StillFetch(Listing(w.stored), ZERO, w.maxRating);
    hide StillFetch, Listing, Clocked, Exec, AllAllowed, SomeReadable, Covered, Next, TailHasRows, CursorGood,
         DistinctIds;
    FirstRun(w, at, ties, 6);
    assert FirstJob(r, at, ties)[..6] == FirstJob(r, at, ties);
    FirstStep(w, r, at, ties, 4);
    FirstViews(w, r, at, ties);
    CappedCoverageExactly(FirstWorld(w, r, at, ties, 4), 0, at, ties);
  }

  lemma FirstViews(w: World, r: FetchResult, at: int, ties: seq<int>)
    requires Fresh(w) && |ties| == |r.reviews|
    ensures CursorGood(FirstWorld(w, r, at, ties, 4), ZERO, true)
    ensures TailHasRows(FirstWorld(w, r, at, ties, 4), ZERO) == TailHasRows(w, ZERO)
    ensures Covered(FirstWorld(w, r, at, ties, 5), r.cursor) == Covered(FirstWorld(w, r, at, ties, 6), r.cursor)
  {
    hide Listing, HasRow, InsertBatch;
  }

  /** One review more than a fetch reads, written one after the other. */
  function Crowd(n: nat): seq<Item> {
    seq(n, i requires 0 <= i < n => Item(seq(i, _ => 'r'), i + 1, Some(3), true, "", "", "", None))
  }

  const CROWDED := World(Place("google", "", ""), 3, Crowd(MAX_ENTRIES + 1), MAX_ENTRIES + 1, [], [], map[])

  lemma CrowdIsGood(n: nat)
    ensures Clocked(Crowd(n), n) && DistinctIds(Crowd(n))
    ensures forall x | x in Crowd(n) :: x.readable && x.star == Some(3) && x.time > ZERO
  {
    forall i, j | 0 <= i < j < n ensures Crowd(n)[i].id != Crowd(n)[j].id {
      assert |Crowd(n)[i].id| == i;
    }
  }

  lemma CrowdHitsCap()
    ensures StillFetch(Listing(CROWDED.stored), ZERO, 3).pageCapHit
    ensures SomeReadable(Listing(CROWDED.stored)) && !TailHasRows(CROWDED, ZERO)
  {
    var view := Listing(CROWDED.stored);
    CrowdIsGood(MAX_ENTRIES + 1);
    hide Crowd;
    ViewFacts(CROWDED.stored, CROWDED.clock);
    CapHitExactly(view, ZERO, 3);
    forall p | 0 <= p < |view| ensures view[p] in CROWDED.stored {
      InListing(CROWDED.stored, view[p]);
    }
    hide StillFetch, Listing;
    assert view[0].readable;
    assert Matches(view[MAX_ENTRIES], 3) && !HasRow([], "google", view[MAX_ENTRIES]);
  }

  /** It happens: a run from an empty log whose job succeeds and leaves a matching review behind. */
  lemma CappedJobLosesAReview(at: int, ties: seq<int>) returns (lost: Item)
    requires |ties| == |StillFetch(Listing(CROWDED.stored), ZERO, 3).reviews|
    ensures var r := StillFetch(Listing(CROWDED.stored), ZERO, 3);
            var end := Exec(CROWDED, FirstJob(r, at, ties));
            && Fresh(CROWDED) && AllAllowed(CROWDED, FirstJob(r, at, ties))
            && |end.jobs| == 1 && end.jobs[0].status == Succeeded
            && lost in end.stored && lost.readable && lost.star == Some(3) && end.maxRating == 3
            && 0 < lost.time <= end.jobs[0].cursor && !HasRow(end.raws, "google", lost)
  {
    CrowdIsGood(MAX_ENTRIES + 1);
    CrowdHitsCap();
    hide Crowd, StillFetch, Listing, FirstJob, Exec, AllAllowed, HasRow, TailHasRows, SomeReadable, Clocked, DistinctIds;
    FirstJobExactly(CROWDED, at, ties);
    var end := Exec(CROWDED, FirstJob(StillFetch(Listing(CROWDED.stored), ZERO, 3), at, ties));
    lost :| lost in end.stored && Wanted(lost, ZERO, end.jobs[0].cursor, 3) && !HasRow(end.raws, "google", lost);
  }

  // ---- It lasts ----

  predicate SameVersion(y: Item, x: Item) {
    y.id == x.id && y.hash == x.hash
  }

  /**
   * The content hash covers the update time, so a fetched entry with the id and hash of `x` is of its time; and
   * no one else inserts that version.
   */
  ghost predicate OnlyByFetch(source: string, e: Event, x: Item) {
    match e
    case FetchOk(_, _, _, out) => forall y | y in out && SameVersion(y, x) :: y.time == x.time
    case OtherInsert(b) => !InBatch(b.reviews, source, x)
    case _ => true
  }

  /** No row, a job that succeeded past it, only later starts, and no worker that fetched it. */
  ghost predicate Lost(w: World, x: Item, j: nat) {
    && !HasRow(w.raws, w.source, x)
    && StartsPast(w, x.time, j)
    && (forall s | s in w.workers && w.workers[s].Fetched? :: NotAmong(w.workers[s].out, x))
  }

  predicate NotAmong(out: seq<Item>, x: Item) {
    forall y | y in out :: !SameVersion(y, x)
  }

  lemma FetchedStayWithout(w: World, e: Event, x: Item, j: nat)
    requires Lost(w, x, j) && Allowed(w, e) && OnlyByFetch(w.source, e, x)
    ensures forall s | s in Next(w, e).workers && Next(w, e).workers[s].Fetched? :: NotAmong(Next(w, e).workers[s].out, x)
  {
    hide InsertBatch, HasRow, HasOpenJob, IsLastSucceeded, SeenUpTo, HeldOn, GoogleAdapter.Complete, Behind;
    if e.FetchOk? && e.worker in w.workers && w.workers[e.worker].Owning? {
      assert WorkerStartsPast(w.jobs, w.workers[e.worker], x.time, j);
      forall y | y in e.out ensures !SameVersion(y, x) {
        assert Wanted(y, w.workers[e.worker].since, e.cursor, w.maxRating);
      }
    }
  }

  lemma RowStaysAbsent(w: World, e: Event, x: Item, j: nat)
    requires Lost(w, x, j) && OnlyByFetch(w.source, e, x)
    ensures !HasRow(Next(w, e).raws, Next(w, e).source, x)
  {
    hide StartsPast;
    match e
    case InsertOk(s, at, ties) =>
      if s in w.workers && w.workers[s].Fetched? && |ties| == |w.workers[s].out| {
        assert NotAmong(w.workers[s].out, x);
        RowsAfterInsert(w.raws, w.place, w.workers[s].out, at, ties, x);
      }
    case OtherInsert(b) =>
      if b.Valid() {
        RowsAfterBatch(w.raws, w.source, b.reviews, b.now, b.ties, x);
      }
    case _ =>
      hide InsertBatch, HasRow, HasOpenJob, IsLastSucceeded;
  }

  lemma {:induction false} LostStaysLost(w: World, trace: seq<Event>, x: Item, j: nat)
    requires Lost(w, x, j) && AllAllowed(w, trace)
    requires forall e | e in trace :: OnlyByFetch(w.source, e, x)
    ensures Lost(Exec(w, trace), x, j) && Exec(w, trace).place == w.place
    decreases |trace|
  {
    if trace != [] {
      var next := Next(w, trace[0]);
      assert trace[0] in trace;
      StartsStayPast(w, trace[0], x.time, j);
      FetchedStayWithout(w, trace[0], x, j);
      RowStaysAbsent(w, trace[0], x, j);
      assert Lost(next, x, j);
      PlaceStays(w, trace[0]);
      hide Next, Lost, Allowed, OnlyByFetch;
      assert forall e | e in trace[1..] :: e in trace;
      LostStaysLost(next, trace[1..], x, j);
    }
  }

  lemma PlaceStays(w: World, e: Event)
    ensures Next(w, e).place == w.place
  {
    hide InsertBatch, HasOpenJob, IsLastSucceeded;
  }

  /** Worker `s` has fetched an unchanging service up to the cap; position `p` lies behind the cut, without a row. */
  ghost predicate CutOff(w: World, s: nat, p: nat) {
    && s in w.workers && w.workers[s].Fetched? && w.workers[s].capHit
    && Clocked(w.stored, w.clock) && DistinctIds(w.stored)
    && (var k := w.workers[s];
        FetchResult(k.out, k.cursor, k.capHit) == StillFetch(Listing(w.stored), k.since, w.maxRating))
    && MAX_ENTRIES <= p < |Listing(w.stored)|
    && !HasRow(w.raws, w.source, Listing(w.stored)[p])
  }

  function AfterSuccess(w: World, s: nat, at: int, ties: seq<int>, finishAt: int): World {
    Next(Next(w, InsertOk(s, at, ties)), Succeed(s, finishAt))
  }

  lemma CutOffHasNoRow(w: World, s: nat, p: nat, at: int, ties: seq<int>, finishAt: int)
    requires CutOff(w, s, p) && |ties| == |w.workers[s].out|
    ensures !HasRow(AfterSuccess(w, s, at, ties, finishAt).raws, w.source, Listing(w.stored)[p])
    ensures AfterSuccess(w, s, at, ties, finishAt).place == w.place
  {
    var x := Listing(w.stored)[p];
    TailNotReturned(w, w.workers[s].since, p);
    RowsAfterInsert(w.raws, w.place, w.workers[s].out, at, ties, x);
    hide StillFetch, Listing, HasRow, InsertBatch, Clocked, DistinctIds;
  }

  /**
   * Any capped job, at any point of any history: an entry behind the cut that had no row has none after the job
   * succeeds, and if from then on every job and worker that is not over starts at or after it, it never gets one,
   * in any later history of jobs, retries and edits, unless that version arrives by another way.
   */
  lemma LostForGood(w: World, s: nat, p: nat, at: int, ties: seq<int>, finishAt: int, later: seq<Event>)
    requires CutOff(w, s, p) && |ties| == |w.workers[s].out|
    requires var (after, x) := (AfterSuccess(w, s, at, ties, finishAt), Listing(w.stored)[p]);
             && StartsPast(after, x.time, w.workers[s].job)
             && (forall t | t in after.workers && after.workers[t].Fetched? :: NotAmong(after.workers[t].out, x))
             && AllAllowed(after, later)
             && forall e | e in later :: OnlyByFetch(w.source, e, x)
    ensures var (after, x) := (AfterSuccess(w, s, at, ties, finishAt), Listing(w.stored)[p]);
            !HasRow(after.raws, w.source, x) && !HasRow(Exec(after, later).raws, w.source, x)
  {
    var (after, x) := (AfterSuccess(w, s, at, ties, finishAt), Listing(w.stored)[p]);
    hide AfterSuccess, Listing, HasRow, StartsPast, NotAmong, OnlyByFetch, AllAllowed, Exec;
    CutOffHasNoRow(w, s, p, at, ties, finishAt);
    hide CutOff;
    LostStaysLost(after, later, x, w.workers[s].job);
  }

  /** The first job of a service: no other job or worker is there, so what it lost is lost for good. */
  lemma FirstJobLosesForGood(w: World, at: int, ties: seq<int>, later: seq<Event>, x: Item)
    requires Fresh(w) && Clocked(w.stored, w.clock) && DistinctIds(w.stored)
    requires |ties| == |StillFetch(Listing(w.stored), ZERO, w.maxRating).reviews|
    requires StillFetch(Listing(w.stored), ZERO, w.maxRating).pageCapHit
    requires var r := StillFetch(Listing(w.stored), ZERO, w.maxRating);
             var end := Exec(w, FirstJob(r, at, ties));
             && Wanted(x, ZERO, r.cursor, w.maxRating) && !HasRow(end.raws, w.source, x)
             && AllAllowed(end, later)
    requires forall e | e in later :: OnlyByFetch(w.source, e, x)
    ensures var r := StillFetch(Listing(w.stored), ZERO, w.maxRating);
            && AllAllowed(w, FirstJob(r, at, ties) + later)
            && !HasRow(Exec(w, FirstJob(r, at, ties) + later).raws, w.source, x)
  {
    var r := StillFetch(Listing(w.stored), ZERO, w.maxRating);
    var end := Exec(w, FirstJob(r, at, ties));
    FirstJobExactly(w, at, ties);
    ExecAppend(w, FirstJob(r, at, ties), later);
    hide StillFetch, Listing, FirstJob, Exec, AllAllowed, HasRow, TailHasRows, SomeReadable, Clocked, DistinctIds,
         OnlyByFetch, Covered;
    assert Lost(end, x, 0);
    LostStaysLost(end, later, x, 0);
  }
}
