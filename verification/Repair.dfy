/** The three reconcilers together: every round of repair lowers (unreflected, new, unrouted) until all are zero. */
module Repair {
  import opened Base
  import opened RawLog
  import opened Tables
  import opened Ingest
  import opened Analyze
  import opened Routing

  /** One undisturbed handling of review.created, as the stale-new leg provokes it. */
  datatype Job = Job(review: Key, model: string, risk: Risk, at: int)

  function AnalyzeOne(db: Db, j: Job): Db {
    Handled(db, j.review, j.model, j.risk, [], j.at).0
  }

  function AnalyzeAll(db: Db, jobs: seq<Job>): Db {
    if jobs == [] then db else AnalyzeOne(AnalyzeAll(db, jobs[..|jobs| - 1]), jobs[|jobs| - 1])
  }

  function JobKeys(jobs: seq<Job>): seq<Key> {
    seq(|jobs|, i requires 0 <= i < |jobs| => jobs[i].review)
  }

  datatype Round = Round(visits: seq<Visit>, jobs: seq<Job>, routes: seq<Key>, at: int)

  function AfterRound(db: Db, r: Round, rules: map<Risk, Rule>): Db {
    RouteAll(AnalyzeAll(Leg1(db, r.visits), r.jobs), r.routes, rules, r.at)
  }

  /** Each leg picks from its scan at that moment, under the limit, and the clock stays before the cutoff. */
  ghost predicate ValidRound(db: Db, r: Round, cutoff: int, limit: nat) {
    var db1 := Leg1(db, r.visits);
    var db2 := AnalyzeAll(db1, r.jobs);
    && Picks(Ids(r.visits), Unreflected(db, cutoff), limit)
    && Picks(JobKeys(r.jobs), StaleNew(db1, cutoff), limit)
    && Picks(r.routes, Unrouted(db2, cutoff), limit)
    && (forall v | v in r.visits :: v.now < cutoff)
    && (forall j | j in r.jobs :: j.at < cutoff)
  }

  ghost predicate RowsLive(reviews: map<Key, Review>, cutoff: int) {
    forall k | k in reviews :: !reviews[k].deleted && reviews[k].updatedAt < cutoff
  }

  ghost predicate AnalysesBefore(db: Db, cutoff: int) {
    forall k | k in db.analyses :: forall a | a in db.analyses[k] :: a.createdAt < cutoff
  }

  /** What repair relies on: the invariants, every timestamp before the cutoff, and nothing it cannot settle. */
  ghost predicate Repairable(db: Db, cutoff: int) {
    && IntakeInv(db) && AnalysisInv(db) && Settled(db.raws, cutoff)
    && RowsLive(db.reviews, cutoff) && AnalysesBefore(db, cutoff) && RatingsFit(db.raws)
  }

  /** Every rating that was read fits the column. */
  ghost predicate RatingsFit(raws: seq<Raw>) {
    forall i | 0 <= i < |raws| && raws[i].norm.Some? :: Fits(raws[i].norm.value.rating)
  }

  ghost predicate AllRules(rules: map<Risk, Rule>) {
    forall risk: Risk :: risk in rules
  }

  // ---- The scans depend on few columns ----

  lemma SameUnreflected(db: Db, after: Db, cutoff: int)
    requires after.raws == db.raws && after.quarantine == db.quarantine
    requires forall k :: k in after.reviews <==> k in db.reviews
    requires forall k | k in db.reviews :: after.reviews[k].raw == db.reviews[k].raw
    ensures Unreflected(after, cutoff) == Unreflected(db, cutoff)
  {
    hide LatestBefore;
    forall i: nat | i < |db.raws| ensures IsUnreflected(after, i, cutoff) == IsUnreflected(db, i, cutoff) {
    }
    hide IsUnreflected;
  }

  // ---- Leg 1 ----

  lemma {:induction false} Leg1StaysRepairable(db: Db, cutoff: int, visits: seq<Visit>)
    requires Repairable(db, cutoff)
    requires forall v | v in visits :: v.now < cutoff
    ensures Repairable(Leg1(db, visits), cutoff) && Leg1(db, visits).raws == db.raws
  {
    hide IngestOne, Repairable, IntakeInv;
    if visits != [] {
      var n := |visits| - 1;
      assert forall v | v in visits[..n] :: v in visits;
      Leg1StaysRepairable(db, cutoff, visits[..n]);
      VisitStaysRepairable(Leg1(db, visits[..n]), cutoff, visits[n]);
    }
  }

  lemma UpsertStamps(raws: seq<Raw>, locked: Option<Review>, p: UpsertParams, now: int)
    ensures var row := UpsertRow(raws, locked, p, now).0;
            && (row.updatedAt == now || locked == Some(row))
            && (locked.None? ==> !row.deleted)
            && (locked.Some? ==> row.deleted == locked.value.deleted)
  {
  }

  lemma VisitKeepsRows(db: Db, cutoff: int, v: Visit)
    requires RowsLive(db.reviews, cutoff) && v.now < cutoff
    ensures RowsLive(IngestOne(db, v).0.reviews, cutoff) && IngestOne(db, v).0.analyses == db.analyses
  {
    IngestShape(db, v);
    if v.raw < |db.raws| && db.raws[v.raw].norm.Some? {
      UpsertStamps(db.raws, ReviewAt(db, db.raws[v.raw].key), ParamsOf(db.raws[v.raw], v), v.now);
    }
    hide IngestOne, UpsertRow;
  }

  lemma VisitStaysRepairable(db: Db, cutoff: int, v: Visit)
    requires Repairable(db, cutoff) && v.now < cutoff
    ensures Repairable(IngestOne(db, v).0, cutoff) && IngestOne(db, v).0.raws == db.raws
  {
    hide IngestOne, IntakeInv, AnalysisInv, Settled, RowsLive;
    NoRollback(db, v);
    IngestKeepsAnalyses(db, v);
    VisitKeepsRows(db, cutoff, v);
  }

  // ---- Analysis ----

  lemma MarkedScans(db: Db, after: Db, k: Key, cutoff: int)
    requires after.raws == db.raws && after.quarantine == db.quarantine
    requires k in db.reviews && k in after.reviews && after.reviews == db.reviews[k := after.reviews[k]]
    requires after.reviews[k].status == Analyzed && after.reviews[k].raw == db.reviews[k].raw
    ensures Unreflected(after, cutoff) == Unreflected(db, cutoff)
    ensures StaleNew(after, cutoff) == StaleNew(db, cutoff) - {k}
  {
    SameUnreflected(db, after, cutoff);
    hide Unreflected;
  }

  /** Handling a new live review takes it, and nothing else, out of the stale-new scan. */
  lemma AnalyzeEffect(db: Db, j: Job, cutoff: int)
    requires Repairable(db, cutoff) && j.at < cutoff
    requires j.review in StaleNew(db, cutoff)
    ensures var after := AnalyzeOne(db, j);
            && Repairable(after, cutoff)
            && after.raws == db.raws
            && Unreflected(after, cutoff) == Unreflected(db, cutoff)
            && StaleNew(after, cutoff) == StaleNew(db, cutoff) - {j.review}
  {
    AnalyzeStaysRepairable(db, j, cutoff);
    AnalyzeShape(db, j);
    hide AnalyzeOne, Repairable, Unreflected;
    MarkedScans(db, AnalyzeOne(db, j), j.review, cutoff);
    hide StaleNew, MarkedRow;
  }

  /** The two ways of handling a live review: an unfenced mark that finds its analysis, or a commit. */
  lemma AnalyzeShape(db: Db, j: Job)
    requires j.review in db.reviews && !db.reviews[j.review].deleted
    ensures var k := j.review;
            var after := AnalyzeOne(db, j);
            && after == db.(reviews := db.reviews[k := MarkedRow(db.reviews[k], j.at)], analyses := after.analyses)
            && (after.analyses == db.analyses
                || (&& k in after.analyses && after.analyses == db.analyses[k := after.analyses[k]]
                    && forall a | a in after.analyses[k] ::
                         a.createdAt == j.at || exists b :: b in db.AnalysesOf(k) && a.createdAt == b.createdAt))
  {
    var k := j.review;
    var after := AnalyzeOne(db, j);
    if after.analyses != db.analyses {
      var history := db.AnalysesOf(k);
      forall a | a in after.analyses[k]
        ensures a.createdAt == j.at || exists b :: b in history && a.createdAt == b.createdAt
      {
        var i :| 0 <= i < |after.analyses[k]| && after.analyses[k][i] == a;
        if i < |history| {
          assert history[i] in history;
        }
      }
    }
  }

  lemma AnalyzeKeepsAnalyses(db: Db, j: Job)
    requires AnalysisInv(db) && j.review in db.reviews && !db.reviews[j.review].deleted
    ensures AnalysisInv(AnalyzeOne(db, j))
  {
    var s := ReadReview(db, j.review, j.model).snapshot;
    if FindCurrent(db.AnalysesOf(j.review), s.AnalysisInput()).Some? {
      assert StillCurrent(db, j.review);
      UnfencedMarkKeepsExactly(db, j.review, j.at);
    } else {
      CommitKeeps(db, s, j.risk, j.at);
    }
    hide AnalysisInv, Commit, MarkAnalyzed, StillCurrent;
  }

  lemma AnalyzeStaysRepairable(db: Db, j: Job, cutoff: int)
    requires Repairable(db, cutoff) && j.at < cutoff
    requires j.review in db.reviews
    ensures Repairable(AnalyzeOne(db, j), cutoff)
  {
    AnalyzeShape(db, j);
    AnalyzeKeepsAnalyses(db, j);
    var after := AnalyzeOne(db, j);
    hide AnalyzeOne, AnalysisInv, Settled;
    ContentKept(db, after);
    hide IntakeInv;
    StampsKept(db, after, j, cutoff);
    hide AnalysesBefore, RowsLive;
  }

  lemma StampsKept(db: Db, after: Db, j: Job, cutoff: int)
    requires RowsLive(db.reviews, cutoff) && AnalysesBefore(db, cutoff) && j.at < cutoff
    requires j.review in db.reviews
    requires after.reviews == db.reviews[j.review := MarkedRow(db.reviews[j.review], j.at)]
    requires after.analyses == db.analyses
             || (&& j.review in after.analyses && after.analyses == db.analyses[j.review := after.analyses[j.review]]
                 && forall a | a in after.analyses[j.review] ::
                      a.createdAt == j.at || exists b :: b in db.AnalysesOf(j.review) && a.createdAt == b.createdAt)
    ensures RowsLive(after.reviews, cutoff) && AnalysesBefore(after, cutoff)
  {
    forall k, a | k in after.analyses && a in after.analyses[k] ensures a.createdAt < cutoff {
    }
  }

  lemma ContentKept(db: Db, after: Db)
    requires IntakeInv(db) && after.raws == db.raws && after.quarantine == db.quarantine
    requires forall k | k in after.reviews ::
               k in db.reviews && after.reviews[k] == db.reviews[k].(status := after.reviews[k].status,
                 version := after.reviews[k].version, updatedAt := after.reviews[k].updatedAt)
    ensures IntakeInv(after)
  {
    hide InOrder;
  }

  lemma {:induction false} AnalyzeAllEffect(db: Db, jobs: seq<Job>, cutoff: int)
    requires Repairable(db, cutoff)
    requires Distinct(JobKeys(jobs)) && Elements(JobKeys(jobs)) <= StaleNew(db, cutoff)
    requires forall j | j in jobs :: j.at < cutoff
    ensures var after := AnalyzeAll(db, jobs);
            && Repairable(after, cutoff)
            && after.raws == db.raws
            && Unreflected(after, cutoff) == Unreflected(db, cutoff)
            && StaleNew(after, cutoff) == StaleNew(db, cutoff) - Elements(JobKeys(jobs))
  {
    hide AnalyzeOne, Repairable, StaleNew, Unreflected;
    if jobs != [] {
      var n := |jobs| - 1;
      var keys := JobKeys(jobs);
      assert JobKeys(jobs[..n]) == keys[..n] && keys[n] == jobs[n].review;
      assert Elements(keys) == Elements(keys[..n]) + {jobs[n].review};
      assert jobs[n].review !in Elements(keys[..n]);
      assert forall j | j in jobs[..n] :: j in jobs;
      AnalyzeAllEffect(db, jobs[..n], cutoff);
      AnalyzeEffect(AnalyzeAll(db, jobs[..n]), jobs[n], cutoff);
    }
  }

  // ---- Routing ----

  lemma SameScans(db: Db, after: Db, cutoff: int)
    requires after.raws == db.raws && after.quarantine == db.quarantine && after.reviews == db.reviews
    requires after.analyses == db.analyses
    requires Repairable(db, cutoff)
    ensures Repairable(after, cutoff)
    ensures Unreflected(after, cutoff) == Unreflected(db, cutoff)
    ensures StaleNew(after, cutoff) == StaleNew(db, cutoff)
  {
    forall k ensures KeyAnalysed(after, k) {
      assert KeyAnalysed(db, k);
    }
    SameUnreflected(db, after, cutoff);
    hide Unreflected, Settled, InOrder;
  }

  lemma RouteEffect(db: Db, k: Key, rules: map<Risk, Rule>, at: int, cutoff: int)
    requires Repairable(db, cutoff) && AllRules(rules)
    requires k in Unrouted(db, cutoff)
    ensures var after := RouteOne(db, k, rules, at).0;
            && Repairable(after, cutoff)
            && after.raws == db.raws
            && Unreflected(after, cutoff) == Unreflected(db, cutoff)
            && StaleNew(after, cutoff) == StaleNew(db, cutoff)
            && Unrouted(after, cutoff) == Unrouted(db, cutoff) - {k}
  {
    hide RouteOne, Repairable, Unreflected, StaleNew, CurrentIndex, AllRules;
    var after := RouteOne(db, k, rules, at).0;
    RouteClaims(db, k, rules, at);
    SameScans(db, after, cutoff);
    forall k' | k' in db.reviews
      ensures IsUnrouted(after, k', cutoff) == (IsUnrouted(db, k', cutoff) && k' != k)
    {
      assert CurrentAnalysis(after, k') == CurrentAnalysis(db, k');
      assert after.AnalysesOf(k') == db.AnalysesOf(k');
    }
  }

  lemma RouteClaims(db: Db, k: Key, rules: map<Risk, Rule>, at: int)
    requires AllRules(rules) && CurrentAnalysis(db, k).Some?
    requires k in db.cases ==> db.cases[k].analysis != CurrentAnalysis(db, k)
    ensures var after := RouteOne(db, k, rules, at).0;
            && after.raws == db.raws && after.quarantine == db.quarantine && after.reviews == db.reviews
            && after.analyses == db.analyses
            && k in after.cases && after.cases[k].analysis == CurrentAnalysis(db, k)
            && after.cases == db.cases[k := after.cases[k]]
  {
    hide Missing, Notices;
  }

  lemma {:induction false} RouteAllEffect(db: Db, keys: seq<Key>, rules: map<Risk, Rule>, at: int, cutoff: int)
    requires Repairable(db, cutoff) && AllRules(rules)
    requires Distinct(keys) && Elements(keys) <= Unrouted(db, cutoff)
    ensures var after := RouteAll(db, keys, rules, at);
            && Repairable(after, cutoff)
            && after.raws == db.raws
            && Unreflected(after, cutoff) == Unreflected(db, cutoff)
            && StaleNew(after, cutoff) == StaleNew(db, cutoff)
            && Unrouted(after, cutoff) == Unrouted(db, cutoff) - Elements(keys)
  {
    hide Repairable, StaleNew, Unreflected, Unrouted, RouteCase;
    if keys != [] {
      var n := |keys| - 1;
      assert Elements(keys) == Elements(keys[..n]) + {keys[n]};
      assert keys[n] !in Elements(keys[..n]);
      RouteAllEffect(db, keys[..n], rules, at, cutoff);
      RouteEffect(RouteAll(db, keys[..n], rules, at), keys[n], rules, at, cutoff);
    }
  }

  // ---- The measure ----

  /** Lexicographically lower, and already in the first place that was not zero. */
  ghost predicate Lower(a: (nat, nat, nat), b: (nat, nat, nat)) {
    if b.0 > 0 then a.0 < b.0
    else if b.1 > 0 then a.0 == 0 && a.1 < b.1
    else a.0 == 0 && a.1 == 0 && a.2 < b.2
  }

  ghost function Backlog(db: Db, cutoff: int): (nat, nat, nat) {
    (|Unreflected(db, cutoff)|, |StaleNew(db, cutoff)|, |Unrouted(db, cutoff)|)
  }

  /** Picking under a positive limit from a non-empty set shrinks it. */
  lemma PickShrinks<T>(out: seq<T>, answer: set<T>, limit: nat)
    requires Picks(out, answer, limit) && limit > 0
    ensures Elements(out) <= answer
    ensures |answer - Elements(out)| <= |answer|
    ensures answer != {} ==> |answer - Elements(out)| < |answer|
    ensures answer == {} ==> out == []
  {
    DistinctCard(out);
    SubsetCard(Elements(out), answer);
    if answer != {} && |answer| == 0 {
      assert false;
    }
  }

  /** The states between the legs of a round. */
  lemma RoundByLegs(db: Db, r: Round, rules: map<Risk, Rule>, cutoff: int, limit: nat)
    requires Repairable(db, cutoff) && AllRules(rules) && limit > 0
    requires ValidRound(db, r, cutoff, limit)
    ensures var db1 := Leg1(db, r.visits);
            var db2 := AnalyzeAll(db1, r.jobs);
            var db3 := AfterRound(db, r, rules);
            && Repairable(db3, cutoff) && db3.raws == db.raws
            && Unreflected(db3, cutoff) == Unreflected(db, cutoff) - Elements(Ids(r.visits))
            && StaleNew(db3, cutoff) == StaleNew(db1, cutoff) - Elements(JobKeys(r.jobs))
            && Unrouted(db3, cutoff) == Unrouted(db2, cutoff) - Elements(r.routes)
            && Elements(Ids(r.visits)) <= Unreflected(db, cutoff)
  {
    var db1 := Leg1(db, r.visits);
    var db2 := AnalyzeAll(db1, r.jobs);
    PickShrinks(Ids(r.visits), Unreflected(db, cutoff), limit);
    PickShrinks(JobKeys(r.jobs), StaleNew(db1, cutoff), limit);
    PickShrinks(r.routes, Unrouted(db2, cutoff), limit);
    NothingDead(db, cutoff, r.visits);
    Leg1StaysRepairable(db, cutoff, r.visits);
    hide Repairable, Unreflected, StaleNew, Unrouted, Leg1, AnalyzeAll, RouteAll;
    AnalyzeAllEffect(db1, r.jobs, cutoff);
    RouteAllEffect(db2, r.routes, rules, r.at, cutoff);
  }

  lemma NothingDead(db: Db, cutoff: int, visits: seq<Visit>)
    requires Repairable(db, cutoff)
    requires Distinct(Ids(visits)) && Elements(Ids(visits)) <= Unreflected(db, cutoff)
    requires forall v | v in visits :: v.now < cutoff
    ensures Unreflected(Leg1(db, visits), cutoff) == Unreflected(db, cutoff) - Elements(Ids(visits))
  {
    Leg1Effect(db, cutoff, visits);
    Leg1StaysRepairable(db, cutoff, visits);
    AllLive(db, cutoff);
    AllLive(Leg1(db, visits), cutoff);
    hide Repairable, Unreflected, Leg1, Live, Stuck;
  }

  lemma AllLive(db: Db, cutoff: int)
    requires Repairable(db, cutoff)
    ensures Live(db, cutoff) == Unreflected(db, cutoff)
  {
    forall i ensures !Dead(db, i) {
    }
    hide Dead, Unreflected, Repairable;
  }

  /** A round strictly lowers (unreflected, new, unrouted), lexicographically, unless all three are zero. */
  lemma RoundLowersBacklog(db: Db, r: Round, rules: map<Risk, Rule>, cutoff: int, limit: nat)
    requires Repairable(db, cutoff) && AllRules(rules) && limit > 0
    requires ValidRound(db, r, cutoff, limit)
    ensures Repairable(AfterRound(db, r, rules), cutoff) && AfterRound(db, r, rules).raws == db.raws
    ensures Backlog(db, cutoff) == (0, 0, 0) ==> Backlog(AfterRound(db, r, rules), cutoff) == (0, 0, 0)
    ensures Backlog(db, cutoff) != (0, 0, 0) ==>
              Lower(Backlog(AfterRound(db, r, rules), cutoff), Backlog(db, cutoff))
  {
    RoundByLegs(db, r, rules, cutoff, limit);
    var db1 := Leg1(db, r.visits);
    var db2 := AnalyzeAll(db1, r.jobs);
    PickShrinks(Ids(r.visits), Unreflected(db, cutoff), limit);
    PickShrinks(JobKeys(r.jobs), StaleNew(db1, cutoff), limit);
    PickShrinks(r.routes, Unrouted(db2, cutoff), limit);
    hide Repairable, Unreflected, StaleNew, Unrouted, AfterRound;
    if Unreflected(db, cutoff) == {} {
      assert r.visits == [] by { assert |Ids(r.visits)| == 0; }
      assert db1 == db;
      if StaleNew(db, cutoff) == {} {
        assert r.jobs == [] by { assert |JobKeys(r.jobs)| == 0; }
        assert db2 == db;
      }
    }
  }

  // ---- A bound on the number of rounds ----

  function KeysOf(raws: seq<Raw>): set<Key> {
    set i | 0 <= i < |raws| :: raws[i].key
  }

  lemma BacklogBounded(db: Db, cutoff: int)
    requires IntakeInv(db)
    ensures |StaleNew(db, cutoff)| <= |KeysOf(db.raws)| && |Unrouted(db, cutoff)| <= |KeysOf(db.raws)|
  {
    forall k | k in db.reviews ensures k in KeysOf(db.raws) {
      assert Reflects(db.raws, k, db.reviews[k]);
    }
    hide InOrder, IsUnrouted;
    SubsetCard(StaleNew(db, cutoff), KeysOf(db.raws));
    SubsetCard(Unrouted(db, cutoff), KeysOf(db.raws));
  }

  lemma RepairableBounds(db: Db, cutoff: int)
    requires Repairable(db, cutoff)
    ensures Backlog(db, cutoff).1 <= |KeysOf(db.raws)| && Backlog(db, cutoff).2 <= |KeysOf(db.raws)|
  {
    BacklogBounded(db, cutoff);
  }

  ghost predicate ValidRounds(db: Db, plan: seq<Round>, rules: map<Risk, Rule>, cutoff: int, limit: nat)
    decreases |plan|
  {
    plan != [] ==>
      ValidRound(db, plan[0], cutoff, limit)
      && ValidRounds(AfterRound(db, plan[0], rules), plan[1..], rules, cutoff, limit)
  }

  function AfterRounds(db: Db, plan: seq<Round>, rules: map<Risk, Rule>): Db
    decreases |plan|
  {
    if plan == [] then db else AfterRounds(AfterRound(db, plan[0], rules), plan[1..], rules)
  }

  function Weight(backlog: (nat, nat, nat), keys: nat): nat {
    if backlog.0 > 0 then backlog.0 + 2 * keys else if backlog.1 > 0 then backlog.1 + keys else backlog.2
  }

  /**
   * With no new versions and no errors, whatever the legs pick: after as many rounds as there are unreflected
   * versions plus twice the number of keys, the three scans find nothing.
   */
  lemma {:induction false} RepairTerminates(db: Db, plan: seq<Round>, rules: map<Risk, Rule>, cutoff: int, limit: nat)
    requires Repairable(db, cutoff) && AllRules(rules) && limit > 0
    requires ValidRounds(db, plan, rules, cutoff, limit)
    requires |plan| >= Weight(Backlog(db, cutoff), |KeysOf(db.raws)|)
    ensures Backlog(AfterRounds(db, plan, rules), cutoff) == (0, 0, 0)
    decreases |plan|
  {
    hide Repairable, AfterRound, ValidRound, KeysOf, Unreflected, StaleNew, Unrouted;
    RepairableBounds(db, cutoff);
    if plan != [] {
      var next := AfterRound(db, plan[0], rules);
      RoundLowersBacklog(db, plan[0], rules, cutoff, limit);
      RepairableBounds(next, cutoff);
      RepairTerminates(next, plan[1..], rules, cutoff, limit);
    }
  }
}
