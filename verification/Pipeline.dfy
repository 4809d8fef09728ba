/**
 * The whole pipeline as a state machine. Messages are hints: any handler may run on any id at any moment and
 * any number of times, which contains every way of losing, repeating and reordering messages.
 */
module Pipeline {
  import opened Base
  import opened RawLog
  import opened Tables
  import opened Ingest
  import opened Analyze
  import opened Routing
  import Notify

  /** Where an analysis worker stands between two of its transactions. */
  datatype Phase = Holding(snapshot: Snapshot) | Computing(snapshot: Snapshot) | Marking(review: Key)

  datatype Sys = Sys(db: Db, workers: map<nat, Phase>)

  const Init := Sys(EmptyDb, map[])

  datatype Event =
    | Insert(batch: Batch)
    | IngestRaw(visit: Visit)
    | Release(raw: nat)
    | DeleteReview(key: Key, at: int)
    | ReadRow(worker: nat, key: Key, model: string)
    | LookUp(worker: nat)
    | Finish(worker: nat, risk: Risk, at: int)
    | MarkReplay(worker: nat, at: int)
    | Crash(worker: nat)
    | RouteAnalysis(key: Key, id: nat, rule: Rule, at: int)
    | SetCaseStatus(key: Key, to: CaseStatus, at: int)
    | RemindCase(key: Key, at: int)
    | TryNotice(notice: nat, accepted: bool)

  /**
   * What an event assumes: a batch gets later (created_at, id) than the versions of its keys, a routing uses an
   * analysis that was read, and a replay that changes a row still finds its analysis when it writes.
   */
  ghost predicate Allowed(s: Sys, e: Event) {
    match e
    case Insert(b) => b.Valid() && InOrder(InsertBatch(s.db.raws, b.reviews, b.now, b.ties).0)
    case RouteAnalysis(k, id, rule, _) => id < |s.db.AnalysesOf(k)|
    case MarkReplay(w, at) => ReplayIsFresh(s, w, at)
    case _ => true
  }

  /** The write changes nothing, or the branch's test would still succeed. */
  ghost predicate ReplayIsFresh(s: Sys, w: nat, at: int) {
    w in s.workers && s.workers[w].Marking? ==>
      var k := s.workers[w].review;
      MarkAnalyzed(s.db, k, at) == s.db || StillCurrent(s.db, k)
  }

  function LookedUp(db: Db, s: Snapshot): Phase {
    if FindCurrent(db.AnalysesOf(s.review), s.AnalysisInput()).Some? then Marking(s.review) else Computing(s)
  }

  function NextDb(s: Sys, e: Event): Db {
    match e
    case Insert(b) =>
      if b.Valid() then s.db.(raws := InsertBatch(s.db.raws, b.reviews, b.now, b.ties).0) else s.db
    case IngestRaw(v) => IngestOne(s.db, v).0
    case Release(i) => s.db.(quarantine := s.db.quarantine - {i})
    case DeleteReview(k, at) => SoftDelete(s.db, k, at)
    case Finish(w, risk, at) =>
      if w in s.workers && s.workers[w].Computing? then Commit(s.db, s.workers[w].snapshot, risk, at).0 else s.db
    case MarkReplay(w, at) =>
      if w in s.workers && s.workers[w].Marking? then MarkAnalyzed(s.db, s.workers[w].review, at) else s.db
    case RouteAnalysis(k, id, rule, at) =>
      if id < |s.db.AnalysesOf(k)| then RouteCase(s.db, k, id, rule, at).0 else s.db
    case SetCaseStatus(k, to, at) => SetStatus(s.db, k, to, at).0
    case RemindCase(k, at) => RemindOne(s.db, k, at)
    case TryNotice(i, ok) =>
      if i < |s.db.notifications|
      then s.db.(notifications := s.db.notifications[i := Notify.Tried(s.db.notifications[i], ok)]) else s.db
    case _ => s.db
  }

  function NextWorkers(s: Sys, e: Event): map<nat, Phase> {
    match e
    case ReadRow(w, k, model) =>
      var read := ReadReview(s.db, k, model);
      if read.Snap? then s.workers[w := Holding(read.snapshot)] else s.workers - {w}
    case LookUp(w) =>
      if w in s.workers && s.workers[w].Holding?
      then s.workers[w := LookedUp(s.db, s.workers[w].snapshot)] else s.workers
    case Finish(w, _, _) => s.workers - {w}
    case MarkReplay(w, _) => s.workers - {w}
    case Crash(w) => s.workers - {w}
    case _ => s.workers
  }

  function Next(s: Sys, e: Event): Sys {
    Sys(NextDb(s, e), NextWorkers(s, e))
  }

  function Exec(s: Sys, trace: seq<Event>): Sys
    decreases |trace|
  {
    if trace == [] then s else Exec(Next(s, trace[0]), trace[1..])
  }

  ghost predicate AllAllowed(s: Sys, trace: seq<Event>)
    decreases |trace|
  {
    trace != [] ==> Allowed(s, trace[0]) && AllAllowed(Next(s, trace[0]), trace[1..])
  }

  lemma {:induction false} ExecSnoc(s: Sys, trace: seq<Event>, e: Event)
    ensures Exec(s, trace + [e]) == Next(Exec(s, trace), e)
    ensures AllAllowed(s, trace + [e]) <==> AllAllowed(s, trace) && Allowed(Exec(s, trace), e)
    decreases |trace|
  {
    hide Next, Allowed;
    if trace == [] {
      assert (trace + [e])[1..] == [];
    } else {
      assert (trace + [e])[1..] == trace[1..] + [e];
      ExecSnoc(Next(s, trace[0]), trace[1..], e);
    }
  }

  // ---- The invariant of every run ----

  ghost predicate PhaseHonest(reviews: map<Key, Review>, p: Phase) {
    p.Marking? || Honest(reviews, p.snapshot)
  }

  ghost predicate WorkersHonest(reviews: map<Key, Review>, workers: map<nat, Phase>) {
    forall w | w in workers :: PhaseHonest(reviews, workers[w])
  }

  ghost predicate Inv(s: Sys) {
    && IntakeInv(s.db)
    && AnalysisInv(s.db)
    && RoutingInv(s.db)
    && WorkersHonest(s.db.reviews, s.workers)
  }

  /** Reviews that differ only in status, version, time and deletion still show their versions. */
  lemma IntakeFrame(db: Db, after: Db)
    requires IntakeInv(db)
    requires after.raws == db.raws && after.quarantine <= db.quarantine
    requires forall k | k in after.reviews ::
               k in db.reviews && SameContent(db.reviews[k], after.reviews[k])
    ensures IntakeInv(after)
  {
    hide InOrder;
  }

  ghost predicate SameContent(a: Review, b: Review) {
    b == a.(status := b.status, version := b.version, updatedAt := b.updatedAt, deleted := b.deleted)
  }

  lemma InsertKeepsIntake(db: Db, b: Batch)
    requires IntakeInv(db) && b.Valid()
    requires InOrder(InsertBatch(db.raws, b.reviews, b.now, b.ties).0)
    ensures IntakeInv(db.(raws := InsertBatch(db.raws, b.reviews, b.now, b.ties).0))
  {
    hide InOrder;
    var raws := InsertBatch(db.raws, b.reviews, b.now, b.ties).0;
    forall k | k in db.reviews ensures Reflects(raws, k, db.reviews[k]) {
      assert Reflects(db.raws, k, db.reviews[k]);
      assert raws[db.reviews[k].raw] == db.raws[db.reviews[k].raw];
    }
    forall i | i in db.quarantine ensures i < |raws| && raws[i].norm.None? {
      assert raws[i] == db.raws[i];
    }
  }

  /** Everything but ingestion leaves the content of the reviews alone. */
  lemma OtherStepsKeepContent(s: Sys, e: Event)
    requires !e.Insert? && !e.IngestRaw?
    ensures var after := NextDb(s, e);
            && after.raws == s.db.raws && after.quarantine <= s.db.quarantine
            && (forall k | k in after.reviews ::
                  k in s.db.reviews && SameContent(s.db.reviews[k], after.reviews[k]))
  {
    hide IngestOne, InsertBatch, Missing, Notices, RouteRow, Retired, StatusRow, IsDue, ValidTransition;
    match e
    case Finish(_, _, _) =>
    case MarkReplay(_, _) =>
    case DeleteReview(_, _) =>
    case _ =>
  }

  lemma StepKeepsIntake(s: Sys, e: Event)
    requires IntakeInv(s.db) && Allowed(s, e)
    ensures IntakeInv(NextDb(s, e))
  {
    match e
    case Insert(b) => InsertKeepsIntake(s.db, b);
    case IngestRaw(v) => NoRollback(s.db, v);
    case _ =>
      OtherStepsKeepContent(s, e);
      hide NextDb, IntakeInv, Allowed;
      IntakeFrame(s.db, NextDb(s, e));
  }

  /** The analyses of a key grow, and only lose their current flag. */
  ghost predicate AnalysesGrow(before: seq<Analysis>, after: seq<Analysis>) {
    |before| <= |after| && forall i | 0 <= i < |before| :: after[i].risk == before[i].risk
  }

  lemma RoutingFrame(db: Db, after: Db)
    requires RoutingInv(db) && after.cases == db.cases
    requires forall k :: AnalysesGrow(db.AnalysesOf(k), after.AnalysesOf(k))
    ensures RoutingInv(after)
  {
    forall k ensures ClaimValid(after, k) {
      assert ClaimValid(db, k);
      assert AnalysesGrow(db.AnalysesOf(k), after.AnalysesOf(k));
    }
  }

  lemma StepKeepsRouting(s: Sys, e: Event)
    requires RoutingInv(s.db) && Allowed(s, e)
    ensures RoutingInv(NextDb(s, e))
  {
    hide RoutingInv, IngestOne, InsertBatch, InOrder, RouteCase, SetStatus, RemindOne, StillCurrent;
    match e
    case RouteAnalysis(k, id, rule, at) => RouteKeeps(s.db, k, id, rule, at);
    case SetCaseStatus(k, to, at) => StatusAndReminderKeep(s.db, k, to, at);
    case RemindCase(k, at) => StatusAndReminderKeep(s.db, k, Open, at);
    case IngestRaw(v) =>
      IngestShape(s.db, v);
      RoutingFrame(s.db, NextDb(s, e));
    case _ =>
      RoutingFrame(s.db, NextDb(s, e));
  }

  lemma AnalysisFrame(db: Db, after: Db)
    requires AnalysisInv(db) && after.reviews == db.reviews && after.analyses == db.analyses
    ensures AnalysisInv(after)
  {
    forall k ensures KeyAnalysed(after, k) {
      assert KeyAnalysed(db, k);
    }
  }

  lemma StepKeepsAnalyses(s: Sys, e: Event)
    requires AnalysisInv(s.db) && IntakeInv(s.db) && WorkersHonest(s.db.reviews, s.workers) && Allowed(s, e)
    ensures AnalysisInv(NextDb(s, e))
  {
    hide IntakeInv, InOrder, AnalysisInv, IngestOne, InsertBatch, Missing, Notices, RouteRow, Commit, StillCurrent;
    match e
    case IngestRaw(v) => IngestKeepsAnalyses(s.db, v);
    case DeleteReview(k, at) => SoftDeleteKeeps(s.db, k, at);
    case Finish(w, risk, at) =>
      if w in s.workers && s.workers[w].Computing? {
        CommitKeeps(s.db, s.workers[w].snapshot, risk, at);
      }
    case MarkReplay(w, at) =>
      if w in s.workers && s.workers[w].Marking? {
        UnfencedMarkKeepsExactly(s.db, s.workers[w].review, at);
      }
    case _ =>
      AnalysisFrame(s.db, NextDb(s, e));
  }

  lemma StepAdvances(s: Sys, e: Event)
    ensures RowsAdvance(s.db.reviews, NextDb(s, e).reviews)
  {
    match e
    case IngestRaw(v) => IngestAdvances(s.db, v);
    case Finish(w, risk, at) =>
      if w in s.workers && s.workers[w].Computing? {
        CommitAdvances(s.db, s.workers[w].snapshot, risk, at);
      }
    case MarkReplay(w, at) =>
      if w in s.workers && s.workers[w].Marking? {
        MarkAdvances(s.db, s.workers[w].review, at);
      }
    case DeleteReview(k, at) => SoftDeleteAdvances(s.db, k, at);
    case _ =>
      hide IngestOne, InsertBatch, Missing, Notices, RouteRow;
  }

  lemma StepKeepsWorkers(s: Sys, e: Event)
    requires WorkersHonest(s.db.reviews, s.workers)
    ensures WorkersHonest(NextDb(s, e).reviews, NextWorkers(s, e))
  {
    StepAdvances(s, e);
    var after := NextDb(s, e).reviews;
    assert e.ReadRow? || e.LookUp? ==> after == s.db.reviews;
    hide NextDb, RowsAdvance;
    forall w | w in NextWorkers(s, e) ensures PhaseHonest(after, NextWorkers(s, e)[w]) {
      if w in s.workers && s.workers[w] == NextWorkers(s, e)[w] && !s.workers[w].Marking? {
        assert PhaseHonest(s.db.reviews, s.workers[w]);
        HonestyLasts(s.db.reviews, after, s.workers[w].snapshot);
      } else if w in s.workers {
        assert PhaseHonest(s.db.reviews, s.workers[w]);
      }
    }
  }

  lemma {:induction false} RunKeepsInv(s: Sys, trace: seq<Event>)
    requires Inv(s) && AllAllowed(s, trace)
    ensures Inv(Exec(s, trace))
    decreases |trace|
  {
    if trace != [] {
      StepKeepsIntake(s, trace[0]);
      StepKeepsRouting(s, trace[0]);
      StepKeepsAnalyses(s, trace[0]);
      StepKeepsWorkers(s, trace[0]);
      hide IntakeInv, AnalysisInv, RoutingInv, WorkersHonest, NextDb, NextWorkers, Allowed;
      RunKeepsInv(Next(s, trace[0]), trace[1..]);
    }
  }

  /**
   * Across a run: no review disappears, points at an older version, comes back from deletion, or reuses a
   * version number.
   */
  ghost predicate RunAdvances(before: Db, after: Db) {
    && before.raws <= after.raws
    && RowsAdvance(before.reviews, after.reviews)
    && forall k | k in before.reviews ::
      && k in after.reviews
      && VersionTime(before.raws, before.reviews[k].raw) <= VersionTime(after.raws, after.reviews[k].raw)
      && (before.reviews[k].deleted ==> after.reviews[k].deleted && after.reviews[k].raw == before.reviews[k].raw
                                        && after.reviews[k].content == before.reviews[k].content)
  }

  lemma InsertNeverRollsBack(db: Db, b: Batch)
    requires IntakeInv(db) && b.Valid()
    ensures RunAdvances(db, db.(raws := InsertBatch(db.raws, b.reviews, b.now, b.ties).0))
  {
    hide InOrder;
    var raws := InsertBatch(db.raws, b.reviews, b.now, b.ties).0;
    forall k | k in db.reviews ensures VersionTime(raws, db.reviews[k].raw) == VersionTime(db.raws, db.reviews[k].raw) {
      assert Reflects(db.raws, k, db.reviews[k]);
    }
  }

  lemma IngestNeverRollsBack(db: Db, v: Visit)
    requires IntakeInv(db)
    ensures RunAdvances(db, IngestOne(db, v).0)
  {
    hide IngestOne, IntakeInv, RowsAdvance;
    NoRollback(db, v);
    IngestAdvances(db, v);
  }

  lemma OthersNeverRollBack(s: Sys, e: Event)
    requires !e.Insert? && !e.IngestRaw?
    ensures RunAdvances(s.db, NextDb(s, e))
  {
    hide NextDb, RowAdvances;
    StepAdvances(s, e);
    OtherStepsKeepContent(s, e);
    StepKeepsDeletion(s, e);
  }

  lemma StepNeverRollsBack(s: Sys, e: Event)
    requires IntakeInv(s.db) && Allowed(s, e)
    ensures RunAdvances(s.db, NextDb(s, e))
  {
    hide IntakeInv, InOrder, RunAdvances, IngestOne, InsertBatch;
    match e
    case Insert(b) => InsertNeverRollsBack(s.db, b);
    case IngestRaw(v) => IngestNeverRollsBack(s.db, v);
    case _ => OthersNeverRollBack(s, e);
  }

  lemma StepKeepsDeletion(s: Sys, e: Event)
    requires !e.Insert? && !e.IngestRaw?
    ensures forall k | k in s.db.reviews && s.db.reviews[k].deleted ::
              k in NextDb(s, e).reviews && NextDb(s, e).reviews[k].deleted
  {
    hide IngestOne, InsertBatch, Missing, Notices, RouteRow, Retired;
  }

  lemma AdvanceTransitive(a: Db, b: Db, c: Db)
    requires RunAdvances(a, b) && RunAdvances(b, c)
    ensures RunAdvances(a, c)
  {
    forall k | k in a.reviews ensures k in c.reviews && RowAdvances(a.reviews[k], c.reviews[k]) {
      assert RowAdvances(a.reviews[k], b.reviews[k]) && RowAdvances(b.reviews[k], c.reviews[k]);
    }
  }

  lemma {:induction false} NeverRollsBack(s: Sys, trace: seq<Event>)
    requires Inv(s) && AllAllowed(s, trace)
    ensures RunAdvances(s.db, Exec(s, trace).db)
    decreases |trace|
  {
    if trace != [] {
      var next := Next(s, trace[0]);
      StepNeverRollsBack(s, trace[0]);
      RunKeepsInv(s, [trace[0]]);
      assert Exec(s, [trace[0]]) == next;
      hide Inv, RunAdvances, NextDb, NextWorkers, Allowed;
      NeverRollsBack(next, trace[1..]);
      AdvanceTransitive(s.db, next.db, Exec(s, trace).db);
    }
  }

  lemma InitInv()
    ensures Inv(Init)
  {
  }

  /** In every run, each review shows exactly the version it points at, which is a version of its own key. */
  lemma EveryReviewShowsItsVersion(trace: seq<Event>, k: Key)
    requires AllAllowed(Init, trace) && k in Exec(Init, trace).db.reviews
    ensures var db := Exec(Init, trace).db;
            && db.reviews[k].raw < |db.raws|
            && var (r, raw) := (db.reviews[k], db.raws[db.reviews[k].raw]);
               && raw.key == k && raw.norm.Some?
               && r.author == raw.norm.value.author && r.content == raw.norm.value.content
               && r.postedAt == raw.norm.value.postedAt && r.url == raw.url
               && r.rating.Some? == raw.norm.value.rating.Some?
               && (r.rating.Some? ==> Tenths(raw.norm.value.rating.value) == r.rating.value)
  {
    hide Exec, AllAllowed, InOrder, Tenths;
    InitInv();
    RunKeepsInv(Init, trace);
    assert Reflects(Exec(Init, trace).db.raws, k, Exec(Init, trace).db.reviews[k]);
  }

  /**
   * In every run: a review has at most one current analysis; once its status is not New the newest analysis is
   * current and of exactly its text and rating; a live review without such an analysis is found by the stale scan.
   */
  lemma FenceHoldsInEveryRun(trace: seq<Event>, k: Key, cutoff: int)
    requires AllAllowed(Init, trace) && k in Exec(Init, trace).db.reviews
    ensures var db := Exec(Init, trace).db;
            var (history, r) := (db.AnalysesOf(k), db.reviews[k]);
            && (forall i, j | 0 <= i < |history| && 0 <= j < |history|
                             && history[i].current && history[j].current :: i == j)
            && (r.status != New ==> CoversRow(history, r))
            && (!r.deleted && !CoversRow(history, r) && r.updatedAt < cutoff ==> k in StaleNew(db, cutoff))
  {
    hide Exec, AllAllowed, IntakeInv, CoversRow;
    InitInv();
    RunKeepsInv(Init, trace);
    assert KeyAnalysed(Exec(Init, trace).db, k);
  }

  /** In every run a case is at least as risky as the analysis it claims. */
  lemma CaseCoversItsClaim(trace: seq<Event>, k: Key)
    requires AllAllowed(Init, trace)
    requires k in Exec(Init, trace).db.cases && Exec(Init, trace).db.cases[k].analysis.Some?
    ensures var db := Exec(Init, trace).db;
            var id := db.cases[k].analysis.value;
            id < |db.AnalysesOf(k)| && db.AnalysesOf(k)[id].risk.Rank() <= db.cases[k].risk.Rank()
  {
    hide Exec, AllAllowed, IntakeInv, AnalysisInv;
    InitInv();
    RunKeepsInv(Init, trace);
    assert ClaimValid(Exec(Init, trace).db, k);
  }

  // ---- Quiescence ----

  /** The cutoff lies after every timestamp: the scans run with age limit zero. */
  ghost predicate PastAll(db: Db, cutoff: int) {
    && Settled(db.raws, cutoff)
    && (forall k | k in db.reviews :: db.reviews[k].updatedAt < cutoff)
    && (forall k, i | k in db.analyses && 0 <= i < |db.analyses[k]| :: db.analyses[k][i].createdAt < cutoff)
  }

  ghost predicate AllScansEmpty(db: Db, cutoff: int) {
    Unreflected(db, cutoff) == {} && StaleNew(db, cutoff) == {} && Unrouted(db, cutoff) == {}
  }

  /** The review shows its key's newest version, unless that version is quarantined. */
  ghost predicate ShowsNewest(db: Db, k: Key) {
    var latest := Latest(db.raws, k);
    && latest.Some?
    && (latest.value !in db.quarantine ==>
          k in db.reviews && db.reviews[k].raw == latest.value && Shows(db.reviews[k], db.raws[latest.value]))
  }

  /** Its one current analysis is of exactly what it shows, and its case claims that analysis. */
  ghost predicate AnalysedAndClaimed(db: Db, k: Key) {
    var history := db.AnalysesOf(k);
    && k in db.reviews
    && history != [] && CurrentIsLast(history) && CoversRow(history, db.reviews[k])
    && k in db.cases && db.cases[k].analysis == Some(|history| - 1)
    && history[|history| - 1].risk.Rank() <= db.cases[k].risk.Rank()
  }

  lemma QuietReview(s: Sys, cutoff: int, k: Key)
    requires Inv(s) && PastAll(s.db, cutoff)
    requires StaleNew(s.db, cutoff) == {} && Unrouted(s.db, cutoff) == {}
    requires k in s.db.reviews && !s.db.reviews[k].deleted
    ensures AnalysedAndClaimed(s.db, k)
  {
    hide IntakeInv, Settled, WorkersHonest;
    var db := s.db;
    assert k !in StaleNew(db, cutoff);
    assert KeyAnalysed(db, k);
    var history := db.AnalysesOf(k);
    assert CurrentIndex(history) == Some(|history| - 1);
    assert k !in Unrouted(db, cutoff);
    assert ClaimValid(db, k);
  }

  /**
   * In every reachable state in which the three scans find nothing, whatever happened to the messages: every
   * key with a version that is not quarantined shows its newest one, and every live review has one current
   * analysis, of exactly its text and rating, claimed by a case of at least that risk.
   */
  lemma QuietMeansConsistent(trace: seq<Event>, cutoff: int)
    requires AllAllowed(Init, trace)
    requires PastAll(Exec(Init, trace).db, cutoff) && AllScansEmpty(Exec(Init, trace).db, cutoff)
    ensures var db := Exec(Init, trace).db;
            && (forall k | Latest(db.raws, k).Some? :: ShowsNewest(db, k))
            && (forall k | k in db.reviews :: Latest(db.raws, k).Some?)
            && (forall k | k in db.reviews && !db.reviews[k].deleted :: AnalysedAndClaimed(db, k))
  {
    InitInv();
    RunKeepsInv(Init, trace);
    var s := Exec(Init, trace);
    var db := s.db;
    hide Exec, AllAllowed, IntakeInv, AnalysisInv, RoutingInv, WorkersHonest, Unreflected, StaleNew, Unrouted,
         AnalysedAndClaimed, Latest;
    forall k | Latest(db.raws, k).Some? ensures ShowsNewest(db, k) {
      NothingFlagged(db, cutoff, k);
    }
    forall k | k in db.reviews ensures Latest(db.raws, k).Some? {
      HasVersion(db, k);
    }
    forall k | k in db.reviews && !db.reviews[k].deleted ensures AnalysedAndClaimed(db, k) {
      QuietReview(s, cutoff, k);
    }
  }

  lemma HasVersion(db: Db, k: Key)
    requires IntakeInv(db) && k in db.reviews
    ensures Latest(db.raws, k).Some?
  {
    hide InOrder;
    LatestIsNewest(db.raws, k, None, db.reviews[k].raw);
  }
}
