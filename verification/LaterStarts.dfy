/**
 * What starts at or after a time: once a job has succeeded at a cursor past `t` and finished last, every job that
 * can still run, and every worker, starts at `t` or later, for ever.
 */
module LaterStarts {
  import opened Base
  import opened RawLog
  import opened Remote
  import opened CrawlJobs
  import GoogleAdapter

  /** A job that started before `t`, can no longer be claimed, and never hands its cursor on. */
  predicate Behind(jobs: seq<Job>, i: nat, t: int, j: nat)
    requires j < |jobs|
  {
    && i < |jobs| && jobs[i].cursor < t
    && (jobs[i].status == DeadLetter || (jobs[i].status == Succeeded && Finished(jobs[i]) < Finished(jobs[j])))
  }

  ghost predicate WorkerStartsPast(jobs: seq<Job>, k: Worker, t: int, j: nat)
    requires j < |jobs|
  {
    if k.Loaded? then k.since >= t || Behind(jobs, k.job, t, j)
    else
      && k.since >= t && k.job != j && !Behind(jobs, k.job, t, j)
      && (k.Owning? || k.cursor >= t)
  }

  /** Job `j` succeeded past `t`; every other job and every worker starts there or later, or is over. */
  ghost predicate StartsPast(w: World, t: int, j: nat) {
    && j < |w.jobs| && w.jobs[j].status == Succeeded && w.jobs[j].cursor >= t
    && (forall i | 0 <= i < |w.jobs| :: w.jobs[i].cursor >= t || Behind(w.jobs, i, t, j))
    && (forall s | s in w.workers :: WorkerStartsPast(w.jobs, w.workers[s], t, j))
  }

  /** What happens to the job table: only jobs that are open, or held past `t`, change. */
  lemma JobsStayPast(w: World, e: Event, t: int, j: nat)
    requires StartsPast(w, t, j) && Allowed(w, e)
    ensures var jobs := Next(w, e).jobs;
            && j < |jobs| && jobs[j] == w.jobs[j]
            && (forall i | 0 <= i < |jobs| :: jobs[i].cursor >= t || Behind(jobs, i, t, j))
            && (forall i: nat | i < |w.jobs| :: Behind(jobs, i, t, j) <==> Behind(w.jobs, i, t, j))
  {
    hide InsertBatch, HasOpenJob, FetchPromise;
    if e.Succeed? || e.Fail? {
      assert e.worker in w.workers ==> WorkerStartsPast(w.jobs, w.workers[e.worker], t, j);
    }
    if e.ClaimJob? {
      assert e.worker in w.workers ==> WorkerStartsPast(w.jobs, w.workers[e.worker], t, j);
    }
  }

  lemma WorkersStayPast(w: World, e: Event, t: int, j: nat)
    requires StartsPast(w, t, j) && Allowed(w, e)
    requires j < |Next(w, e).jobs|
    requires forall i: nat | i < |w.jobs| :: Behind(Next(w, e).jobs, i, t, j) <==> Behind(w.jobs, i, t, j)
    ensures forall s | s in Next(w, e).workers :: WorkerStartsPast(Next(w, e).jobs, Next(w, e).workers[s], t, j)
  {
    hide InsertBatch, HasOpenJob, IsLastSucceeded, SeenUpTo, HeldOn, GoogleAdapter.Complete;
    forall s | s in w.workers ensures WorkerStartsPast(w.jobs, w.workers[s], t, j) {
    }
  }

  lemma StartsStayPast(w: World, e: Event, t: int, j: nat)
    requires StartsPast(w, t, j) && Allowed(w, e)
    ensures StartsPast(Next(w, e), t, j)
  {
    hide Next, Allowed, Behind, WorkerStartsPast;
    JobsStayPast(w, e, t, j);
    WorkersStayPast(w, e, t, j);
  }
}
