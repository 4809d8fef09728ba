/** The crawl worker's runJob and the job table it works on, in place. */
module CrawlWorker {
  import opened Base
  import opened RawLog
  import opened Remote
  import opened GoogleAdapter
  import opened CrawlJobs
  import opened Storage

  datatype JobStats = JobStats(fetched: nat, inserted: nat, duplicates: nat, pageCapHit: bool)

  /** What is down or missing around one delivery. */
  datatype Outages = Outages(loadUp: bool, claimUp: bool, adapterKnown: bool, insertUp: bool, finishUp: bool)

  /** Where a claimed delivery ends. */
  datatype Ending =
    | UnknownAdapter
    | FetchFailed
    | InsertFailed(got: FetchResult)
    | PublishFailed(got: FetchResult)
    | Done(got: FetchResult)

  class CrawlStore {
    const place: Place
    const maxRating: nat
    const db: Store
    var jobs: seq<Job>
    /** Jobs that the queue took over. */
    var queued: seq<nat>

    constructor (place: Place, maxRating: nat, db: Store)
      ensures jobs == [] && queued == [] && this.db == db && this.place == place && this.maxRating == maxRating
    {
      this.place, this.maxRating, this.db := place, maxRating, db;
      jobs, queued := [], [];
    }

    /** The world with no other worker in sight. */
    ghost function Value(server: Server): World
      reads this, db, server
    {
      World(place, maxRating, server.stored, server.clock, db.raws, jobs, map[])
    }

    /**
     * Nothing while a job is open or the schedule's next time after the last job is still to come; otherwise a
     * job that starts at the last succeeded cursor. If it cannot be queued it stays pending until it is reaped.
     */
    method ScheduleOne(server: Server, at: int, next: int -> int, queueUp: bool)
      returns (created: Option<nat>, ok: bool, ghost from: Option<nat>)
      modifies this`jobs, this`queued
      ensures created.Some? <==> !HasOpenJob(old(jobs)) && DueNow(next, LastScheduled(old(jobs)), at)
      ensures created.Some? ==> created.value == |old(jobs)| && IsLastSucceeded(old(jobs), from)
      ensures from.Some? ==> from.value < |old(jobs)|
      ensures jobs == if created.None? then old(jobs)
                      else old(jobs) + [Job(JobStatus.Pending, if from.Some? then old(jobs)[from.value].cursor else 0,
                                            at, None, None, from.Some? ==> old(jobs)[from.value].clean)]
      ensures Value(server) == if created.Some? then Next(old(Value(server)), Schedule(at, from)) else old(Value(server))
      ensures ok == (created.Some? ==> queueUp)
      ensures queued == old(queued) + if created.Some? && queueUp then [created.value] else []
    {
      var last := LastSucceeded(jobs);
      from := last;
      LastSucceededIsLatest(jobs);
      if HasOpenJob(jobs) {
        return None, true, from;
      }
      if !DueNow(next, LastScheduled(jobs), at) {
        return None, true, from;
      }
      created := Some(|jobs|);
      jobs := jobs + [NewJob(jobs, last, at)];
      if !queueUp {
        return created, false, from;
      }
      queued := queued + [created.value];
      ok := true;
    }

    method Claim(j: nat, at: int) returns (claimed: bool)
      requires j < |jobs|
      modifies this`jobs
      ensures claimed == (old(jobs)[j].status in {Pending, JobStatus.Failed})
      ensures jobs == if claimed then old(jobs)[j := old(jobs)[j].(status := Running, startedAt := Some(at))]
                      else old(jobs)
    {
      claimed := jobs[j].status == Pending || jobs[j].status == JobStatus.Failed;
      if claimed {
        jobs := jobs[j := jobs[j].(status := Running, startedAt := Some(at))];
      }
    }

    method Finish(j: nat, status: JobStatus, cursor: int, at: int, clean: bool)
      requires j < |jobs|
      modifies this`jobs
      ensures jobs == old(jobs)[j := FinishedJob(old(jobs)[j], status, cursor, at, clean)]
    {
      jobs := jobs[j := jobs[j].(status := status, cursor := cursor, finishedAt := Some(at), clean := clean)];
    }

    /** Finishing with a cursor that is good now keeps the invariant of the history, and so does failing to finish. */
    method FinishKeeping(server: Server, j: nat, status: JobStatus, cursor: int, at: int, clean: bool, up: bool,
                         ghost start: World)
      requires j < |jobs| == |start.jobs| && CrawlInv(start) && Later(start, Value(server))
      requires forall i | 0 <= i < |jobs| && i != j :: jobs[i] == start.jobs[i]
      requires jobs[j].cursor == start.jobs[j].cursor && jobs[j].clean == start.jobs[j].clean
      requires CursorGood(Value(server), cursor, clean)
      modifies this`jobs
      ensures jobs == if up then old(jobs)[j := FinishedJob(old(jobs)[j], status, cursor, at, clean)] else old(jobs)
      ensures CrawlInv(Value(server))
    {
      hide CrawlInv, CursorGood, Later;
      ghost var mid := Value(server);
      JobCursorGood(start, j);
      GoodAfter(start, mid, start.jobs[j].cursor, start.jobs[j].clean);
      if up {
        Finish(j, status, cursor, at, clean);
      }
      InvAfter(start, mid, Value(server), j);
    }

    /** Fails every job that has been running or pending for too long; cursors stay. */
    method ReapStaleJobs(runningSince: int, pendingSince: int, at: int) returns (reaped: nat)
      modifies this`jobs
      ensures |jobs| == |old(jobs)| && reaped == StaleCount(old(jobs), runningSince, pendingSince)
      ensures forall j | 0 <= j < |jobs| ::
                jobs[j] == if IsStale(old(jobs)[j], runningSince, pendingSince)
                           then old(jobs)[j].(status := JobStatus.Failed, finishedAt := Some(at)) else old(jobs)[j]
    {
      reaped := 0;
      var j := 0;
      while j < |jobs|
        invariant 0 <= j <= |jobs| == |old(jobs)|
        invariant reaped == StaleCount(old(jobs)[..j], runningSince, pendingSince)
        invariant forall i | j <= i < |jobs| :: jobs[i] == old(jobs)[i]
        invariant forall i | 0 <= i < j ::
                    jobs[i] == if IsStale(old(jobs)[i], runningSince, pendingSince)
                               then old(jobs)[i].(status := JobStatus.Failed, finishedAt := Some(at)) else old(jobs)[i]
      {
        assert old(jobs)[..j + 1][..j] == old(jobs)[..j];
        if IsStale(jobs[j], runningSince, pendingSince) {
          jobs := jobs[j := jobs[j].(status := JobStatus.Failed, finishedAt := Some(at))];
          reaped := reaped + 1;
        }
        j := j + 1;
      }
      assert old(jobs)[..j] == old(jobs);
    }

    /** Publishes one event per result, until publishing fails. */
    method PublishAll(results: seq<InsertResult>, publishable: nat)
      returns (inserted: nat, duplicates: nat, ok: bool)
      ensures ok == (|results| <= publishable)
      ensures ok ==> inserted == InsertedCount(results) && inserted + duplicates == |results|
      ensures !ok ==> inserted == InsertedCount(results[..publishable + 1]) && inserted + duplicates == publishable + 1
    {
      inserted, duplicates := 0, 0;
      var i := 0;
      while i < |results|
        invariant 0 <= i <= |results| && i <= publishable
        invariant inserted + duplicates == i && inserted == InsertedCount(results[..i])
      {
        assert results[..i + 1][..i] == results[..i];
        if results[i].inserted {
          inserted := inserted + 1;
        } else {
          duplicates := duplicates + 1;
        }
        if i >= publishable {
          return inserted, duplicates, false;
        }
        i := i + 1;
      }
      assert results[..i] == results;
      ok := true;
    }

    /**
     * One delivery of a crawl job. The service lives on between the page reads; pages in `failing` answer with
     * an error; only the first `publishable` events can be published; `newTies` orders the new uuids. Whatever
     * fails, the job keeps the cursor it came with, so nothing is skipped: before the claim nothing changes, and
     * afterwards it is failed, or stays running for the reaper when even that cannot be written.
     */
    method RunJob(j: nat, server: Server, drift: seq<seq<Change>>, failing: set<nat>, publishable: nat, o: Outages,
                  isFinal: bool, newTies: int, at: int)
      returns (ok: bool, stats: JobStats, ghost ending: Option<Ending>)
      requires j < |jobs| && server.Valid() && CrawlInv(Value(server))
      requires |drift| == MAX_PAGES && DriftRises(server.clock, drift)
      modifies this`jobs, db`raws, server
      ensures server.Valid() && CrawlInv(Value(server))
      ensures ending.Some? <==> o.loadUp && o.claimUp && old(jobs)[j].status in {Pending, JobStatus.Failed}
      ensures ending.None? ==> ok == (o.loadUp && o.claimUp) && jobs == old(jobs) && db.raws == old(db.raws)
      ensures ending.Some? ==>
                && jobs == old(jobs)[j := EndedJob(old(jobs)[j], ending.value, isFinal, o.finishUp, at)]
                && ok == (ending.value.UnknownAdapter? || (ending.value.Done? && o.finishUp))
                && FitsOutages(ending.value, o, failing, publishable)
                && db.raws == RawsAfter(old(db.raws), place, ending.value, at, newTies)
                && StatsFit(stats, ending.value, publishable, |db.raws| - |old(db.raws)|)
      ensures ending.Some? && ending.value.Done? ==>
                var (fetched, added) := (|ending.value.got.reviews|, |db.raws| - |old(db.raws)|);
                0 <= added <= fetched && stats == JobStats(fetched, added, fetched - added, ending.value.got.pageCapHit)
    {
      hide CrawlInv, CursorGood, Later, WorkerGood, DriftRises, LaterOnly, InsertBatch, ToInsert, InsertedCount,
           Server.Valid, FetchPromise, StillFetch, Still;
      stats, ending := JobStats(0, 0, 0, false), None;
      ghost var start := Value(server);
      JobCursorGood(start, j);
      if !o.loadUp {
        return false, stats, None;
      }
      var job := jobs[j];
      if !o.claimUp {
        return false, stats, None;
      }
      var claimed := Claim(j, at);
      if !claimed {
        return true, stats, None;
      }
      var failStatus := if isFinal then DeadLetter else JobStatus.Failed;
      var since := job.cursor;
      if !o.adapterKnown {
        ClaimIsLater(start, Value(server));
        GoodAfter(start, Value(server), since, job.clean);
        FinishKeeping(server, j, DeadLetter, since, at, job.clean, o.finishUp, start);
        return true, stats, Some(UnknownAdapter);
      }
      var res := FetchFor(server, j, since, job.clean, drift, failing, start);
      if res.None? {
        FinishKeeping(server, j, failStatus, since, at, job.clean, o.finishUp, start);
        return false, stats, Some(FetchFailed);
      }
      ghost var e;
      ok, stats, e := StoreAndFinish(j, server, res.value, publishable, o, isFinal, newTies, at, start);
      ending := Some(e);
    }

    /** What follows a fetch that succeeded. */
    method StoreAndFinish(j: nat, server: Server, r: FetchResult, publishable: nat, o: Outages, isFinal: bool,
                          newTies: int, at: int, ghost start: World)
      returns (ok: bool, stats: JobStats, ghost ending: Ending)
      requires j < |jobs| == |start.jobs| && CrawlInv(start) && Later(start, Value(server))
      requires forall i | 0 <= i < |jobs| && i != j :: jobs[i] == start.jobs[i]
      requires jobs[j] == start.jobs[j].(status := Running, startedAt := Some(at))
      requires WorkerGood(Value(server), Fetched(j, jobs[j].cursor, jobs[j].clean, r.cursor, r.pageCapHit, r.reviews))
      modifies this`jobs, db`raws
      ensures CrawlInv(Value(server))
      ensures !ending.UnknownAdapter? && !ending.FetchFailed?
      ensures jobs == old(jobs)[j := EndedJob(start.jobs[j], ending, isFinal, o.finishUp, at)]
      ensures ok == (ending.Done? && o.finishUp)
      ensures (ending.InsertFailed? <==> !o.insertUp) && (ending.PublishFailed? ==> |r.reviews| > publishable)
      ensures (ending.Done? ==> |r.reviews| <= publishable) && ending.got == r
      ensures db.raws == RawsAfter(old(db.raws), place, ending, at, newTies)
      ensures StatsFit(stats, ending, publishable, |db.raws| - |old(db.raws)|)
    {
      hide CrawlInv, CursorGood, Later, WorkerGood, InsertBatch, ToInsert, InsertedCount, Server.Valid;
      var job := jobs[j];
      var failStatus := if isFinal then DeadLetter else JobStatus.Failed;
      JobCursorGood(start, j);
      GoodAfter(start, Value(server), job.cursor, job.clean);
      stats := JobStats(|r.reviews|, 0, 0, r.pageCapHit);
      if !o.insertUp {
        FinishKeeping(server, j, failStatus, job.cursor, at, job.clean, o.finishUp, start);
        return false, stats, InsertFailed(r);
      }
      var inserted, duplicates;
      inserted, duplicates, ok :=
        StoreAndPublish(server, j, r, job.cursor, job.clean, publishable, newTies, at, start, Value(server));
      stats := JobStats(|r.reviews|, inserted, duplicates, r.pageCapHit);
      if !ok {
        FinishKeeping(server, j, failStatus, job.cursor, at, job.clean, o.finishUp, start);
        return false, stats, PublishFailed(r);
      }
      FinishKeeping(server, j, Succeeded, r.cursor, at, job.clean && !r.pageCapHit, o.finishUp, start);
      return o.finishUp, stats, Done(r);
    }

    /** The fetch, seen from the crawl history: the service only moved on, and the worker holds a good result. */
    method FetchFor(server: Server, j: nat, since: int, clean: bool, drift: seq<seq<Change>>, failing: set<nat>,
                    ghost start: World)
      returns (res: Option<FetchResult>)
      requires server.Valid() && since <= server.clock
      requires |drift| == MAX_PAGES && DriftRises(server.clock, drift)
      requires Value(server) == start.(jobs := jobs) && CursorGood(start, since, clean)
      modifies server
      ensures server.Valid() && Later(start, Value(server))
      ensures Value(server) == start.(stored := server.stored, clock := server.clock, jobs := jobs)
      ensures CursorGood(Value(server), since, clean)
      ensures res.None? ==> exists p :: p in failing && p < MAX_PAGES
      ensures res.Some? ==>
                var FetchResult(reviews, cursor, pageCapHit) := res.value;
                && FetchPromise(server.stored, server.clock, since, maxRating, cursor, pageCapHit, reviews)
                && WorkerGood(Value(server), Fetched(j, since, clean, cursor, pageCapHit, reviews))
    {
      hide CursorGood, DriftRises, SeenUpTo, Still, StillFetch, GoogleAdapter.Complete, Wanted, Shown;
      ghost var pages;
      res, pages := Fetch(server, since, maxRating, drift, failing);
      FetchIsLater(start, Value(server));
      GoodAfter(start, Value(server), since, clean);
    }

    /** The insertion and the publishes: afterwards both the old and the new cursor are good. */
    method StoreAndPublish(server: Server, j: nat, r: FetchResult, since: int, clean: bool, publishable: nat,
                           newTies: int, at: int, ghost start: World, ghost fetched: World)
      returns (inserted: nat, duplicates: nat, ok: bool)
      requires fetched == Value(server) && Later(start, fetched)
      requires CursorGood(start, since, clean)
      requires WorkerGood(fetched, Fetched(j, since, clean, r.cursor, r.pageCapHit, r.reviews))
      modifies db`raws
      ensures Later(start, Value(server))
      ensures CursorGood(Value(server), since, clean)
      ensures CursorGood(Value(server), r.cursor, clean && !r.pageCapHit)
      ensures Value(server) == old(Value(server)).(raws := db.raws)
      ensures db.raws == InsertBatch(old(db.raws), ToInsert(place, r.reviews), at,
                                     seq(|r.reviews|, i => newTies + i)).0
      ensures ok == (|r.reviews| <= publishable)
      ensures ok ==> inserted + duplicates == |r.reviews| && |db.raws| == |old(db.raws)| + inserted
      ensures !ok ==> inserted + duplicates == publishable + 1
    {
      var ties := seq(|r.reviews|, i => newTies + i);
      var incoming := ToInsert(place, r.reviews);
      ghost var before := db.raws;
      hide CursorGood;
      InsertedIsGood(fetched, fetched.(raws := InsertBatch(before, incoming, at, ties).0),
                     Fetched(j, since, clean, r.cursor, r.pageCapHit, r.reviews), at, ties);
      InsertCounts(before, incoming, at, ties);
      hide WorkerGood;
      var results := db.InsertRawReviews(incoming, at, ties);
      assert Later(start, Value(server));
      GoodAfter(start, Value(server), since, clean);
      inserted, duplicates, ok := PublishAll(results, publishable);
    }
  }

  /** The row a claimed job is left with. */
  function EndedJob(j: Job, ending: Ending, isFinal: bool, finishUp: bool, at: int): Job {
    var running := j.(status := Running, startedAt := Some(at));
    if !finishUp then running
    else
      match ending
      case UnknownAdapter => FinishedJob(running, DeadLetter, j.cursor, at, j.clean)
      case Done(r) => FinishedJob(running, Succeeded, r.cursor, at, j.clean && !r.pageCapHit)
      case _ => FinishedJob(running, if isFinal then DeadLetter else JobStatus.Failed, j.cursor, at, j.clean)
  }

  /**
   * The row of a claimed job, column by column: succeeded with the fetched cursor, dead when the adapter is unknown
   * or the last delivery fails, failed before that, each at the old cursor; still running if that cannot be written.
   */
  lemma EndedExactly(j: Job, ending: Ending, isFinal: bool, finishUp: bool, at: int)
    ensures var d := EndedJob(j, ending, isFinal, finishUp, at);
            && d.startedAt == Some(at) && d.createdAt == j.createdAt
            && d.finishedAt == (if finishUp then Some(at) else j.finishedAt)
            && d.status == (if !finishUp then Running
                            else if ending.Done? then Succeeded
                            else if isFinal || ending.UnknownAdapter? then DeadLetter else JobStatus.Failed)
            && d.cursor == (if finishUp && ending.Done? then ending.got.cursor else j.cursor)
            && (d.clean <==> j.clean && (finishUp && ending.Done? ==> !ending.got.pageCapHit))
  {
  }

  /** The ending is the first thing that went wrong. */
  ghost predicate FitsOutages(ending: Ending, o: Outages, failing: set<nat>, publishable: nat) {
    && (ending.UnknownAdapter? <==> !o.adapterKnown)
    && (ending.FetchFailed? ==> exists p :: p in failing && p < MAX_PAGES)
    && (ending.InsertFailed? ==> !o.insertUp)
    && (ending.PublishFailed? ==> o.insertUp && |ending.got.reviews| > publishable)
    && (ending.Done? ==> o.insertUp && |ending.got.reviews| <= publishable)
  }

  /** The batch is in the log exactly when its insertion was reached and committed. */
  function RawsAfter(raws: seq<Raw>, place: Place, ending: Ending, at: int, newTies: int): seq<Raw> {
    if ending.PublishFailed? || ending.Done? then
      var reviews := ending.got.reviews;
      InsertBatch(raws, ToInsert(place, reviews), at, seq(|reviews|, i => newTies + i)).0
    else raws
  }

  predicate StatsFit(stats: JobStats, ending: Ending, publishable: nat, added: int) {
    match ending
    case UnknownAdapter => stats == JobStats(0, 0, 0, false)
    case FetchFailed => stats == JobStats(0, 0, 0, false)
    case InsertFailed(r) => stats == JobStats(|r.reviews|, 0, 0, r.pageCapHit)
    case PublishFailed(r) =>
      stats.fetched == |r.reviews| && stats.pageCapHit == r.pageCapHit
      && stats.inserted + stats.duplicates == publishable + 1
    case Done(r) =>
      stats.fetched == |r.reviews| == stats.inserted + stats.duplicates && stats.pageCapHit == r.pageCapHit
      && stats.inserted == added
  }

  /** scheduled_at of the newest job. */
  function LastScheduled(jobs: seq<Job>): Option<int> {
    if jobs == [] then None
    else
      var n := |jobs| - 1;
      var before := LastScheduled(jobs[..n]);
      if before.Some? && before.value > jobs[n].createdAt then before else Some(jobs[n].createdAt)
  }

  lemma {:induction false} LastScheduledIsNewest(jobs: seq<Job>)
    ensures LastScheduled(jobs).None? <==> jobs == []
    ensures var last := LastScheduled(jobs);
            last.Some? ==>
              && (exists i :: 0 <= i < |jobs| && jobs[i].createdAt == last.value)
              && (forall j | 0 <= j < |jobs| :: jobs[j].createdAt <= last.value)
  {
    if jobs != [] {
      var n := |jobs| - 1;
      LastScheduledIsNewest(jobs[..n]);
      assert jobs[n].createdAt <= LastScheduled(jobs).value;
    }
  }

  /**
   * A job is due exactly when none is pending or running and, unless there is no job at all, the schedule's next
   * time after the newest one has come.
   */
  lemma DueExactly(jobs: seq<Job>, next: int -> int, at: int)
    ensures !HasOpenJob(jobs) && DueNow(next, LastScheduled(jobs), at) <==>
              && (forall i | 0 <= i < |jobs| :: jobs[i].status != JobStatus.Pending && jobs[i].status != Running)
              && (jobs == [] || exists i :: 0 <= i < |jobs| && next(jobs[i].createdAt) <= at
                                            && forall j | 0 <= j < |jobs| :: jobs[j].createdAt <= jobs[i].createdAt)
  {
    LastScheduledIsNewest(jobs);
    hide LastScheduled;
  }

  /** The first job at once, then by the schedule's next time after the last one. */
  predicate DueNow(next: int -> int, last: Option<int>, at: int) {
    last.Some? ==> next(last.value) <= at
  }

  predicate IsStale(j: Job, runningSince: int, pendingSince: int) {
    || (j.status == Running && j.startedAt.Some? && j.startedAt.value < runningSince)
    || (j.status == Pending && j.createdAt < pendingSince)
  }

  /** How many jobs a pass reaps: the running ones started, and the pending ones created, before the limits. */
  lemma StaleCountExactly(jobs: seq<Job>, runningSince: int, pendingSince: int)
    ensures StaleCount(jobs, runningSince, pendingSince)
            == |set j | 0 <= j < |jobs|
                        && ((jobs[j].status == Running && jobs[j].startedAt.Some?
                             && jobs[j].startedAt.value < runningSince)
                            || (jobs[j].status == JobStatus.Pending && jobs[j].createdAt < pendingSince))|
  {
    StaleCountIs(jobs, runningSince, pendingSince);
    assert (set j | 0 <= j < |jobs| && IsStale(jobs[j], runningSince, pendingSince))
        == (set j | 0 <= j < |jobs|
                    && ((jobs[j].status == Running && jobs[j].startedAt.Some? && jobs[j].startedAt.value < runningSince)
                        || (jobs[j].status == JobStatus.Pending && jobs[j].createdAt < pendingSince)));
  }

  lemma {:induction false} StaleCountIs(jobs: seq<Job>, runningSince: int, pendingSince: int)
    ensures StaleCount(jobs, runningSince, pendingSince)
            == |set j | 0 <= j < |jobs| && IsStale(jobs[j], runningSince, pendingSince)|
  {
    hide IsStale;
    if jobs != [] {
      var n := |jobs| - 1;
      var front := jobs[..n];
      StaleCountIs(front, runningSince, pendingSince);
      assert (set j | 0 <= j < |jobs| && IsStale(jobs[j], runningSince, pendingSince))
          == (set j | 0 <= j < |front| && IsStale(front[j], runningSince, pendingSince))
             + if IsStale(jobs[n], runningSince, pendingSince) then {n} else {};
    }
  }

  function StaleCount(jobs: seq<Job>, runningSince: int, pendingSince: int): nat {
    if jobs == [] then 0
    else
      StaleCount(jobs[..|jobs| - 1], runningSince, pendingSince)
      + if IsStale(jobs[|jobs| - 1], runningSince, pendingSince) then 1 else 0
  }

  function InsertedCount(results: seq<InsertResult>): nat {
    if results == [] then 0
    else InsertedCount(results[..|results| - 1]) + if results[|results| - 1].inserted then 1 else 0
  }

  /** The log grows by one row for each result that says so. */
  lemma {:induction false} InsertCounts(log: seq<Raw>, reviews: seq<Incoming>, now: int, ties: seq<int>)
    requires |reviews| == |ties|
    ensures |InsertBatch(log, reviews, now, ties).0| == |log| + InsertedCount(InsertBatch(log, reviews, now, ties).1)
  {
    if reviews != [] {
      var n := |reviews| - 1;
      InsertCounts(log, reviews[..n], now, ties[..n]);
      var results := InsertBatch(log, reviews, now, ties).1;
      assert results[..n] == InsertBatch(log, reviews[..n], now, ties[..n]).1;
      hide Latest;
    }
  }

  lemma ClaimIsLater(w: World, after: World)
    requires after == w.(jobs := after.jobs)
    ensures Later(w, after)
  {
  }

  /** During a fetch only the service and the job table change, the service by rising edits. */
  lemma FetchIsLater(w: World, after: World)
    requires after == w.(stored := after.stored, clock := after.clock, jobs := after.jobs)
    requires w.clock <= after.clock && LaterOnly(w.stored, w.clock, after.stored)
    ensures Later(w, after)
  {
  }

  lemma GoodAfter(w: World, after: World, cursor: int, clean: bool)
    requires CursorGood(w, cursor, clean) && Later(w, after)
    ensures CursorGood(after, cursor, clean)
  {
    CursorStaysGood(w, after, cursor, clean);
  }

  lemma JobCursorGood(w: World, j: nat)
    requires CrawlInv(w) && j < |w.jobs|
    ensures CursorGood(w, w.jobs[j].cursor, w.jobs[j].clean) && w.jobs[j].cursor <= w.clock && Later(w, w)
  {
  }

  /** Finishing one job with a good cursor keeps the invariant. */
  lemma InvAfter(start: World, mid: World, end: World, j: nat)
    requires CrawlInv(start) && Later(start, mid) && end == mid.(jobs := end.jobs)
    requires j < |end.jobs| == |start.jobs| && end.workers == map[]
    requires forall i | 0 <= i < |end.jobs| && i != j ::
               end.jobs[i].cursor == start.jobs[i].cursor && end.jobs[i].clean == start.jobs[i].clean
    requires CursorGood(mid, end.jobs[j].cursor, end.jobs[j].clean)
    ensures CrawlInv(end)
  {
    forall i | 0 <= i < |end.jobs| ensures CursorGood(end, end.jobs[i].cursor, end.jobs[i].clean) {
      if i != j {
        CursorStaysGood(start, end, start.jobs[i].cursor, start.jobs[i].clean);
      }
    }
  }

  lemma InsertedIsGood(w: World, after: World, k: Worker, at: int, ties: seq<int>)
    requires k.Fetched? && WorkerGood(w, k) && |ties| == |k.out|
    requires after == w.(raws := InsertBatch(w.raws, ToInsert(w.place, k.out), at, ties).0)
    ensures Later(w, after)
    ensures CursorGood(after, k.cursor, k.clean && !k.capHit)
  {
    var armed := w.(workers := map[0 := k]);
    InsertCovers(armed, 0, at, ties);
    hide InsertBatch;
  }
}
