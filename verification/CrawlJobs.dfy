/** Job histories of one source location: what a succeeded job's cursor promises, whatever happens to the others. */
module CrawlJobs {
  import opened Base
  import opened RawLog
  import opened Remote
  import GoogleAdapter

  datatype JobStatus = Pending | Running | Succeeded | Failed | DeadLetter

  /** cursorTime of a missing cursor. */
  const ZERO := 0

  /** `clean` is history: no fetch in the chain of jobs behind this cursor hit the page cap. */
  datatype Job = Job(status: JobStatus, cursor: int, createdAt: int, startedAt: Option<int>, finishedAt: Option<int>,
                     clean: bool)

  /** What a worker holds; `since` and `clean` are the job's cursor as it was loaded. */
  datatype Worker =
    | Loaded(job: nat, since: int, clean: bool)
    | Owning(job: nat, since: int, clean: bool)
    | Fetched(job: nat, since: int, clean: bool, cursor: int, capHit: bool, out: seq<Item>)
    | Stored(job: nat, since: int, clean: bool, cursor: int, capHit: bool)

  /** The crawled place: its source, the review page of its store and its location id. */
  datatype Place = Place(source: string, url: string, location: string)

  datatype World = World(place: Place, maxRating: nat, stored: seq<Item>, clock: int, raws: seq<Raw>,
                         jobs: seq<Job>, workers: map<nat, Worker>)
  {
    const source: string := place.source
  }

  datatype Event =
    | RemoteChange(change: Change)
    | OtherInsert(batch: Batch)
    | Schedule(at: int, from: Option<nat>)
    | Load(worker: nat, job: nat)
    | ClaimJob(worker: nat, at: int)
    | FetchOk(worker: nat, cursor: int, capHit: bool, out: seq<Item>)
    | InsertOk(worker: nat, at: int, ties: seq<int>)
    | Succeed(worker: nat, at: int)
    | Fail(worker: nat, final: bool, at: int)
    | Die(worker: nat)
    | Reap(job: nat, at: int)

  predicate HasOpenJob(jobs: seq<Job>) {
    exists i | 0 <= i < |jobs| :: jobs[i].status in {Pending, Running}
  }

  /** finished_at of a job. */
  function Finished(j: Job): int {
    if j.finishedAt.Some? then j.finishedAt.value else 0
  }

  /** ORDER BY finished_at DESC LIMIT 1 among the succeeded jobs: any of those that finished last. */
  predicate IsLastSucceeded(jobs: seq<Job>, from: Option<nat>) {
    match from
    case None => forall j | 0 <= j < |jobs| :: jobs[j].status != Succeeded
    case Some(i) =>
      && i < |jobs| && jobs[i].status == Succeeded
      && forall j | 0 <= j < |jobs| && jobs[j].status == Succeeded :: Finished(jobs[j]) <= Finished(jobs[i])
  }

  /** One of them. */
  function LastSucceeded(jobs: seq<Job>): (r: Option<nat>)
    ensures r.Some? ==> r.value < |jobs| && jobs[r.value].status == Succeeded
  {
    if jobs == [] then None
    else
      var n := |jobs| - 1;
      var before := LastSucceeded(jobs[..n]);
      if jobs[n].status != Succeeded then before
      else if before.None? || Finished(jobs[before.value]) <= Finished(jobs[n]) then Some(n)
      else before
  }

  function NewJob(jobs: seq<Job>, from: Option<nat>, at: int): Job
    requires IsLastSucceeded(jobs, from)
  {
    match from
    case None => Job(Pending, ZERO, at, None, None, true)
    case Some(i) => Job(Pending, jobs[i].cursor, at, None, None, jobs[i].clean)
  }

  /** The google normalizer: it decodes what the client decodes; a known rating word becomes its number. */
  function NormalOf(x: Item): Option<Normalized> {
    if x.readable then
      Some(Normalized(x.author, if x.star.Some? then Some(x.star.value as real) else None, x.comment, x.posted))
    else None
  }

  /** The raw review that the adapter makes of an entry. */
  function ToRaw(p: Place, x: Item): Incoming {
    Incoming(Key(p.source, x.id), x.hash, NormalOf(x), p.url, p.location)
  }

  function ToInsert(p: Place, out: seq<Item>): seq<Incoming> {
    seq(|out|, i requires 0 <= i < |out| => ToRaw(p, out[i]))
  }

  /** FinishJob: no look at the present status. */
  function FinishedJob(j: Job, status: JobStatus, cursor: int, at: int, clean: bool): Job {
    j.(status := status, cursor := cursor, finishedAt := Some(at), clean := clean)
  }

  function Next(w: World, e: Event): World {
    match e
    case RemoteChange(c) => w.(stored := Changed(w.stored, c), clock := c.item.time)
    case OtherInsert(b) => if b.Valid() then w.(raws := InsertBatch(w.raws, b.reviews, b.now, b.ties).0) else w
    case Schedule(at, from) =>
      if HasOpenJob(w.jobs) || !IsLastSucceeded(w.jobs, from) then w
      else w.(jobs := w.jobs + [NewJob(w.jobs, from, at)])
    case Load(x, j) =>
      if j < |w.jobs| then w.(workers := w.workers[x := Loaded(j, w.jobs[j].cursor, w.jobs[j].clean)]) else w
    case ClaimJob(x, at) =>
      if x in w.workers && w.workers[x].Loaded? then
        var k := w.workers[x];
        if k.job < |w.jobs| && w.jobs[k.job].status in {Pending, Failed}
        then w.(jobs := w.jobs[k.job := w.jobs[k.job].(status := Running, startedAt := Some(at))],
                workers := w.workers[x := Owning(k.job, k.since, k.clean)])
        else w.(workers := w.workers - {x})
      else w
    case FetchOk(x, cursor, capHit, out) =>
      if x in w.workers && w.workers[x].Owning? then
        var k := w.workers[x];
        w.(workers := w.workers[x := Fetched(k.job, k.since, k.clean, cursor, capHit, out)])
      else w
    case InsertOk(x, at, ties) =>
      if x in w.workers && w.workers[x].Fetched? && |ties| == |w.workers[x].out| then
        var k := w.workers[x];
        w.(raws := InsertBatch(w.raws, ToInsert(w.place, k.out), at, ties).0,
           workers := w.workers[x := Stored(k.job, k.since, k.clean, k.cursor, k.capHit)])
      else w
    case Succeed(x, at) =>
      if x in w.workers && w.workers[x].Stored? && w.workers[x].job < |w.jobs| then
        var k := w.workers[x];
        w.(jobs := w.jobs[k.job := FinishedJob(w.jobs[k.job], Succeeded, k.cursor, at, k.clean && !k.capHit)],
           workers := w.workers - {x})
      else w
    case Fail(x, final, at) =>
      if x in w.workers && !w.workers[x].Loaded? && w.workers[x].job < |w.jobs| then
        var k := w.workers[x];
        var status := if final then DeadLetter else Failed;
        w.(jobs := w.jobs[k.job := FinishedJob(w.jobs[k.job], status, k.since, at, k.clean)],
           workers := w.workers - {x})
      else w
    case Die(x) => w.(workers := w.workers - {x})
    case Reap(j, at) =>
      if j < |w.jobs| && w.jobs[j].status in {Pending, Running}
      then w.(jobs := w.jobs[j := w.jobs[j].(status := Failed, finishedAt := Some(at))]) else w
  }

  /** The promise that the method GoogleAdapter.Fetch is proved to keep, page-cap hit or not. */
  ghost predicate FetchPromise(stored: seq<Item>, clock: int, since: int, maxRating: nat, cursor: int, capHit: bool,
                               out: seq<Item>)
  {
    && since <= cursor <= clock
    && (forall y | y in out :: Wanted(y, since, cursor, maxRating)) && HeldOn(stored, out)
    && (!capHit ==> GoogleAdapter.Complete(stored, since, cursor, maxRating, out))
    && (capHit ==>
          && |stored| > GoogleAdapter.MAX_ENTRIES
          && SeenUpTo(Listing(stored), GoogleAdapter.MAX_ENTRIES, since, cursor, maxRating, out))
  }

  /** Edit times rise, and a fetch keeps its promise. */
  ghost predicate Allowed(w: World, e: Event) {
    match e
    case RemoteChange(c) => RisingChange(w.clock, c)
    case FetchOk(x, cursor, capHit, out) =>
      x in w.workers ==> FetchPromise(w.stored, w.clock, w.workers[x].since, w.maxRating, cursor, capHit, out)
    case _ => true
  }

  function Exec(w: World, trace: seq<Event>): World
    decreases |trace|
  {
    if trace == [] then w else Exec(Next(w, trace[0]), trace[1..])
  }

  ghost predicate AllAllowed(w: World, trace: seq<Event>)
    decreases |trace|
  {
    trace != [] ==> Allowed(w, trace[0]) && AllAllowed(Next(w, trace[0]), trace[1..])
  }

  lemma {:induction false} ExecSnoc(w: World, trace: seq<Event>, e: Event)
    ensures Exec(w, trace + [e]) == Next(Exec(w, trace), e)
    ensures AllAllowed(w, trace + [e]) <==> AllAllowed(w, trace) && Allowed(Exec(w, trace), e)
    decreases |trace|
  {
    hide Next, Allowed;
    if trace == [] {
      assert (trace + [e])[1..] == [];
    } else {
      assert (trace + [e])[1..] == trace[1..] + [e];
      ExecSnoc(Next(w, trace[0]), trace[1..], e);
    }
  }

  lemma {:induction false} ExecAppend(w: World, a: seq<Event>, b: seq<Event>)
    ensures Exec(w, a + b) == Exec(Exec(w, a), b)
    ensures AllAllowed(w, a + b) <==> AllAllowed(w, a) && AllAllowed(Exec(w, a), b)
    decreases |a|
  {
    hide Next, Allowed;
    if a == [] {
      assert a + b == b;
    } else {
      assert (a + b)[1..] == a[1..] + b;
      ExecAppend(Next(w, a[0]), a[1..], b);
    }
  }

  // ---- Coverage ----

  ghost predicate HasRow(raws: seq<Raw>, source: string, x: Item) {
    exists i :: 0 <= i < |raws| && raws[i].key == Key(source, x.id) && raws[i].hash == x.hash
  }

  /** Every matching review whose latest edit is at most `cursor` has a row of exactly that version. */
  ghost predicate Covered(w: World, cursor: int) {
    forall x | x in w.stored && Wanted(x, ZERO, cursor, w.maxRating) :: HasRow(w.raws, w.source, x)
  }

  ghost predicate CursorGood(w: World, cursor: int, clean: bool) {
    ZERO <= cursor <= w.clock && (clean ==> Covered(w, cursor))
  }

  ghost predicate WorkerGood(w: World, k: Worker) {
    && CursorGood(w, k.since, k.clean)
    && (k.Fetched? ==>
          && k.since <= k.cursor <= w.clock
          && (!k.capHit ==> GoogleAdapter.Complete(w.stored, k.since, k.cursor, w.maxRating, k.out)))
    && (k.Stored? ==> CursorGood(w, k.cursor, k.clean && !k.capHit))
  }

  ghost predicate CrawlInv(w: World) {
    && ZERO <= w.clock
    && (forall j | 0 <= j < |w.jobs| :: CursorGood(w, w.jobs[j].cursor, w.jobs[j].clean))
    && (forall x | x in w.workers :: WorkerGood(w, w.workers[x]))
  }

  /** Later worlds: rows are only added, and whatever changed at the service is later than the old clock. */
  ghost predicate Later(w: World, after: World) {
    && after.place == w.place && after.maxRating == w.maxRating
    && w.raws <= after.raws
    && w.clock <= after.clock
    && forall x | x in after.stored :: x in w.stored || x.time > w.clock
  }

  lemma RowsStay(w: World, after: World, x: Item)
    requires Later(w, after) && HasRow(w.raws, w.source, x)
    ensures HasRow(after.raws, after.source, x)
  {
    var i :| 0 <= i < |w.raws| && w.raws[i].key == Key(w.source, x.id) && w.raws[i].hash == x.hash;
    assert after.raws[i] == w.raws[i];
  }

  /** A cursor that covered keeps covering: edits are later than it. */
  lemma CursorStaysGood(w: World, after: World, cursor: int, clean: bool)
    requires Later(w, after) && CursorGood(w, cursor, clean)
    ensures CursorGood(after, cursor, clean)
  {
    if clean {
      forall x | x in after.stored && Wanted(x, ZERO, cursor, after.maxRating)
        ensures HasRow(after.raws, after.source, x)
      {
        RowsStay(w, after, x);
      }
    }
  }

  lemma WorkerStaysGood(w: World, after: World, k: Worker)
    requires Later(w, after) && WorkerGood(w, k)
    ensures WorkerGood(after, k)
  {
    CursorStaysGood(w, after, k.since, k.clean);
    if k.Stored? {
      CursorStaysGood(w, after, k.cursor, k.clean && !k.capHit);
    }
    hide CursorGood;
  }

  lemma StepIsLater(w: World, e: Event)
    requires Allowed(w, e)
    ensures Later(w, Next(w, e))
  {
    if e.RemoteChange? {
      match e.change {
        case Add(x) =>
        case Edit(i, x) =>
          if i < |w.stored| {
            var after := w.stored[i := NewEntry(w.stored, e.change)];
            forall y | y in after ensures y in w.stored || y == NewEntry(w.stored, e.change) {
            }
          }
      }
    }
    hide HasOpenJob, IsLastSucceeded;
  }

  /** After the insertion, everything fetched has its row; with the old cursor covered, so is the new one. */
  lemma InsertCovers(w: World, x: nat, at: int, ties: seq<int>)
    requires x in w.workers && w.workers[x].Fetched? && |ties| == |w.workers[x].out|
    requires WorkerGood(w, w.workers[x])
    ensures var k := w.workers[x];
            CursorGood(Next(w, InsertOk(x, at, ties)), k.cursor, k.clean && !k.capHit)
  {
    var k := w.workers[x];
    var after := Next(w, InsertOk(x, at, ties));
    var batch := ToInsert(w.place, k.out);
    StepIsLater(w, InsertOk(x, at, ties));
    if k.clean && !k.capHit {
      forall y | y in after.stored && Wanted(y, ZERO, k.cursor, after.maxRating)
        ensures HasRow(after.raws, after.source, y)
      {
        if y.time <= k.since {
          RowsStay(w, after, y);
        } else {
          assert y in k.out;
          var i :| 0 <= i < |k.out| && k.out[i] == y;
          ResultsNameTheirRows(w.raws, batch, at, ties, i);
          assert batch[i].key == Key(w.source, y.id) && batch[i].hash == y.hash;
        }
      }
    }
  }

  /** The choice is one of those that finished last; None means that no job succeeded. */
  lemma {:induction false} LastSucceededIsLatest(jobs: seq<Job>)
    ensures IsLastSucceeded(jobs, LastSucceeded(jobs))
    ensures LastSucceeded(jobs).None? <==> forall j | 0 <= j < |jobs| :: jobs[j].status != Succeeded
    ensures LastSucceeded(jobs).Some? ==>
              var last := jobs[LastSucceeded(jobs).value];
              && last.status == Succeeded
              && forall j | 0 <= j < |jobs| && jobs[j].status == Succeeded ::
                   jobs[j].finishedAt.Some? && last.finishedAt.Some?
                   ==> jobs[j].finishedAt.value <= last.finishedAt.value
  {
    if jobs != [] {
      var front := jobs[..|jobs| - 1];
      LastSucceededIsLatest(front);
      assert forall j | 0 <= j < |front| :: front[j] == jobs[j];
    }
  }

  /**
   * With or without a page-cap hit: after the insertion the fetched cursor is covered exactly when each
   * matching review up to it already had its row or was returned. What a capped fetch returns is worked out in
   * the module PageCap.
   */
  lemma CoverageAfterInsertExactly(w: World, x: nat, at: int, ties: seq<int>)
    requires x in w.workers && w.workers[x].Fetched? && |ties| == |w.workers[x].out|
    ensures var k := w.workers[x];
            Covered(Next(w, InsertOk(x, at, ties)), k.cursor)
            <==> forall y | y in w.stored && Wanted(y, ZERO, k.cursor, w.maxRating) ::
                   HasRow(w.raws, w.source, y) || exists z :: z in k.out && z.id == y.id && z.hash == y.hash
  {
    var k := w.workers[x];
    var after := Next(w, InsertOk(x, at, ties));
    forall y ensures HasRow(after.raws, after.source, y)
                     <==> HasRow(w.raws, w.source, y) || exists z :: z in k.out && z.id == y.id && z.hash == y.hash
    {
      RowsAfterInsert(w.raws, w.place, k.out, at, ties, y);
    }
    hide HasRow, InsertBatch;
  }

  predicate InBatch(reviews: seq<Incoming>, source: string, x: Item) {
    exists i :: 0 <= i < |reviews| && reviews[i].key == Key(source, x.id) && reviews[i].hash == x.hash
  }

  lemma RowsAfterBatch(raws: seq<Raw>, source: string, reviews: seq<Incoming>, at: int, ties: seq<int>, x: Item)
    requires |reviews| == |ties|
    ensures HasRow(InsertBatch(raws, reviews, at, ties).0, source, x)
            <==> HasRow(raws, source, x) || InBatch(reviews, source, x)
  {
    var after := InsertBatch(raws, reviews, at, ties).0;
    if HasRow(raws, source, x) {
      var i :| 0 <= i < |raws| && raws[i].key == Key(source, x.id) && raws[i].hash == x.hash;
      assert after[i] == raws[i];
    }
    if InBatch(reviews, source, x) {
      var i :| 0 <= i < |reviews| && reviews[i].key == Key(source, x.id) && reviews[i].hash == x.hash;
      ResultsNameTheirRows(raws, reviews, at, ties, i);
      assert after[InsertBatch(raws, reviews, at, ties).1[i].id].key == Key(source, x.id);
    }
    if HasRow(after, source, x) && !HasRow(raws, source, x) {
      var j :| 0 <= j < |after| && after[j].key == Key(source, x.id) && after[j].hash == x.hash;
      assert forall i | 0 <= i < |raws| :: after[i] == raws[i];
      var i := NewRowsAreInputs(raws, reviews, at, ties, j);
      assert reviews[i].key == Key(source, x.id);
    }
  }

  lemma RowsAfterInsert(raws: seq<Raw>, p: Place, out: seq<Item>, at: int, ties: seq<int>, y: Item)
    requires |ties| == |out|
    ensures HasRow(InsertBatch(raws, ToInsert(p, out), at, ties).0, p.source, y)
            <==> HasRow(raws, p.source, y) || exists z :: z in out && z.id == y.id && z.hash == y.hash
  {
    hide HasRow, InsertBatch;
    var batch := ToInsert(p, out);
    RowsAfterBatch(raws, p.source, batch, at, ties, y);
    if z :| z in out && z.id == y.id && z.hash == y.hash {
      var i :| 0 <= i < |out| && out[i] == z;
      assert batch[i].key == Key(p.source, y.id);
    }
    if InBatch(batch, p.source, y) {
      var i :| 0 <= i < |batch| && batch[i].key == Key(p.source, y.id) && batch[i].hash == y.hash;
      assert out[i] in out;
    }
  }

  lemma JobsStayGood(w: World, e: Event)
    requires CrawlInv(w) && Allowed(w, e)
    ensures forall j | 0 <= j < |Next(w, e).jobs| ::
              CursorGood(Next(w, e), Next(w, e).jobs[j].cursor, Next(w, e).jobs[j].clean)
  {
    var after := Next(w, e);
    StepIsLater(w, e);
    assert CursorGood(w, ZERO, true);
    forall c, b | CursorGood(w, c, b) ensures CursorGood(after, c, b) {
      CursorStaysGood(w, after, c, b);
    }
    hide CursorGood, Later, HasOpenJob, Allowed;
  }

  lemma WorkersStayGood(w: World, e: Event)
    requires CrawlInv(w) && Allowed(w, e)
    ensures forall x | x in Next(w, e).workers :: WorkerGood(Next(w, e), Next(w, e).workers[x])
  {
    var after := Next(w, e);
    StepIsLater(w, e);
    if e.InsertOk? && e.worker in w.workers && w.workers[e.worker].Fetched? && |e.ties| == |w.workers[e.worker].out| {
      InsertCovers(w, e.worker, e.at, e.ties);
    }
    forall x | x in w.workers ensures WorkerGood(after, w.workers[x]) {
      WorkerStaysGood(w, after, w.workers[x]);
    }
    hide CursorGood, Later, HasOpenJob, IsLastSucceeded, InsertBatch, GoogleAdapter.Complete;
  }

  lemma {:induction false} RunKeepsCoverage(w: World, trace: seq<Event>)
    requires CrawlInv(w) && AllAllowed(w, trace)
    ensures CrawlInv(Exec(w, trace))
    decreases |trace|
  {
    if trace != [] {
      JobsStayGood(w, trace[0]);
      WorkersStayGood(w, trace[0]);
      StepIsLater(w, trace[0]);
      assert CrawlInv(Next(w, trace[0]));
      hide CrawlInv, Next, Allowed;
      RunKeepsCoverage(Next(w, trace[0]), trace[1..]);
    }
  }

  /** A service and a log in any state, no job yet. */
  ghost predicate Fresh(w: World) {
    w.jobs == [] && w.workers == map[] && ZERO <= w.clock
  }

  /**
   * For every history of failed, reaped, retried, overlapping and late jobs: if job `j` succeeded and no fetch
   * behind it hit the page cap, every matching review whose latest edit is at most its cursor has a raw row
   * for that version; so whatever has no row yet is later than the cursor, where the next fetch starts.
   */
  lemma SucceededMeansCovered(w: World, trace: seq<Event>, j: nat)
    requires Fresh(w) && AllAllowed(w, trace)
    requires j < |Exec(w, trace).jobs|
    requires Exec(w, trace).jobs[j].status == Succeeded && Exec(w, trace).jobs[j].clean
    ensures var end := Exec(w, trace);
            && Covered(end, end.jobs[j].cursor)
            && (forall x, s | x in end.stored && x.readable && x.star == Some(s) && s <= end.maxRating
                              && 0 < x.time <= end.jobs[j].cursor ::
                  exists i :: 0 <= i < |end.raws|
                             && end.raws[i].key == Key(end.source, x.id) && end.raws[i].hash == x.hash)
            && forall x, s | x in end.stored && x.readable && x.star == Some(s) && s <= end.maxRating && x.time > 0
                             && !HasRow(end.raws, end.source, x) :: x.time > end.jobs[j].cursor
  {
    RunKeepsCoverage(w, trace);
    var end := Exec(w, trace);
    hide Exec, AllAllowed;
    assert CursorGood(end, end.jobs[j].cursor, true);
    CoveredInFields(end, end.jobs[j].cursor);
  }

  lemma CoveredInFields(w: World, cursor: int)
    requires Covered(w, cursor)
    ensures forall x, s | x in w.stored && x.readable && x.star == Some(s) && s <= w.maxRating && 0 < x.time <= cursor ::
              HasRow(w.raws, w.source, x)
  {
    hide HasRow;
  }
}
