/** review.created -> analysis_results: the version fence of the analyzer and its unfenced replay branch. */
module Analyze {
  import opened Base
  import opened RawLog
  import opened Tables
  import opened Ingest

  /** What a worker read before the slow call to the model. */
  datatype Snapshot = Snapshot(review: Key, content: string, rating: Option<int>, version: nat, model: string) {
    function AnalysisInput(): Input {
      Input(model, rating, content)
    }
  }

  datatype ReadResult = NotYetVisible | SkipDeleted | Snap(snapshot: Snapshot)

  function ReadReview(db: Db, k: Key, model: string): ReadResult {
    if k !in db.reviews then NotYetVisible
    else if db.reviews[k].deleted then SkipDeleted
    else var r := db.reviews[k]; Snap(Snapshot(k, r.content, r.rating, r.version, model))
  }

  /** The current analysis of exactly this input, if any: the idempotence test. */
  function FindCurrent(analyses: seq<Analysis>, input: Input): Option<nat> {
    if analyses == [] then None
    else
      var n := |analyses| - 1;
      if analyses[n].current && analyses[n].input == input then Some(n) else FindCurrent(analyses[..n], input)
  }

  function Retired(analyses: seq<Analysis>): seq<Analysis> {
    seq(|analyses|, i requires 0 <= i < |analyses| => analyses[i].(current := false))
  }

  datatype CommitResult = Discarded | Fenced | Committed(id: nat)

  function MarkedRow(r: Review, now: int): Review {
    if r.status == New then Touched(r.(status := Analyzed), now) else r
  }

  /** The transaction behind the fence: nothing is written unless the row still has the version that was read. */
  function Commit(db: Db, s: Snapshot, risk: Risk, now: int): (Db, CommitResult) {
    var k := s.review;
    if k !in db.reviews || db.reviews[k].deleted then (db, Discarded)
    else if db.reviews[k].version != s.version then (db, Fenced)
    else
      var history := Retired(db.AnalysesOf(k));
      (db.(analyses := db.analyses[k := history + [Analysis(s.AnalysisInput(), risk, true, now)]],
           reviews := db.reviews[k := MarkedRow(db.reviews[k], now)]),
       Committed(|history|))
  }

  /** The replay branch's write: no fence. */
  function MarkAnalyzed(db: Db, k: Key, now: int): Db {
    if k in db.reviews && !db.reviews[k].deleted && db.reviews[k].status == New
    then db.(reviews := db.reviews[k := MarkedRow(db.reviews[k], now)])
    else db
  }

  /**
   * What one handling of review.created does, and whether it acknowledges and commits; `during` is what
   * ingestion does between the read and the commit.
   */
  function Handled(db: Db, k: Key, model: string, risk: Risk, during: seq<Visit>, now: int): (Db, (bool, bool)) {
    match ReadReview(db, k, model)
    case NotYetVisible => (db, (false, false))
    case SkipDeleted => (db, (true, false))
    case Snap(s) =>
      if FindCurrent(db.AnalysesOf(k), s.AnalysisInput()).Some? then (MarkAnalyzed(db, k, now), (true, false))
      else
        var (after, res) := Commit(Leg1(db, during), s, risk, now);
        (after, (!res.Fenced?, res.Committed?))
  }

  /** An operator's soft delete; no service writes deleted_at. */
  function SoftDelete(db: Db, k: Key, now: int): Db {
    if k in db.reviews then db.(reviews := db.reviews[k := Touched(db.reviews[k].(deleted := true), now)]) else db
  }

  /**
   * The fenced transaction in the fields of the rows: nothing is written for a deleted row or one whose version
   * changed; otherwise the model's answer is appended as the only current analysis, and a row that is still new
   * is marked.
   */
  lemma CommitExactly(db: Db, s: Snapshot, risk: Risk, now: int)
    ensures var k := s.review;
            var (after, res) := Commit(db, s, risk, now);
            var history := if k in db.analyses then db.analyses[k] else [];
            && (res == Discarded <==> k !in db.reviews || db.reviews[k].deleted)
            && (res == Fenced <==> k in db.reviews && !db.reviews[k].deleted && db.reviews[k].version != s.version)
            && (res.Committed? <==> k in db.reviews && !db.reviews[k].deleted && db.reviews[k].version == s.version)
            && (!res.Committed? ==> after == db)
            && (res.Committed? ==>
                  && res.id == |history| && k in after.analyses && |after.analyses[k]| == |history| + 1
                  && (var a := after.analyses[k][|history|];
                      && a.risk == risk && a.current && a.createdAt == now
                      && a.input.model == s.model && a.input.rating == s.rating && a.input.content == s.content)
                  && (forall i | 0 <= i < |history| ::
                        && !after.analyses[k][i].current && after.analyses[k][i].risk == history[i].risk
                        && after.analyses[k][i].input == history[i].input
                        && after.analyses[k][i].createdAt == history[i].createdAt)
                  && k in after.reviews
                  && after.reviews[k] == (var r := db.reviews[k];
                                          if r.status == New
                                          then r.(status := Analyzed, version := r.version + 1, updatedAt := now) else r)
                  && after == db.(analyses := db.analyses[k := after.analyses[k]],
                                  reviews := db.reviews[k := after.reviews[k]]))
  {
  }

  // ---- Versions identify rows ----

  ghost predicate RowAdvances(before: Review, after: Review) {
    before.version <= after.version && (before.version == after.version ==> before == after)
  }

  /** Between two states no row disappears and equal versions mean equal rows. */
  ghost predicate RowsAdvance(before: map<Key, Review>, after: map<Key, Review>) {
    forall k | k in before :: k in after && RowAdvances(before[k], after[k])
  }

  lemma IngestAdvances(db: Db, v: Visit)
    ensures RowsAdvance(db.reviews, IngestOne(db, v).0.reviews)
  {
    IngestShape(db, v);
    hide IngestOne;
  }

  lemma CommitAdvances(db: Db, s: Snapshot, risk: Risk, now: int)
    ensures RowsAdvance(db.reviews, Commit(db, s, risk, now).0.reviews)
  {
    hide Retired;
  }

  lemma MarkAdvances(db: Db, k: Key, now: int)
    ensures RowsAdvance(db.reviews, MarkAnalyzed(db, k, now).reviews)
  {
  }

  lemma SoftDeleteAdvances(db: Db, k: Key, now: int)
    ensures RowsAdvance(db.reviews, SoftDelete(db, k, now).reviews)
  {
  }

  /** A snapshot is honest: if the version is still the one read, so are text and rating. */
  ghost predicate Honest(reviews: map<Key, Review>, s: Snapshot) {
    && s.review in reviews
    && s.version <= reviews[s.review].version
    && (s.version == reviews[s.review].version ==>
          s.content == reviews[s.review].content && s.rating == reviews[s.review].rating)
  }

  lemma HonestyLasts(before: map<Key, Review>, after: map<Key, Review>, s: Snapshot)
    requires Honest(before, s) && RowsAdvance(before, after)
    ensures Honest(after, s)
  {
    assert RowAdvances(before[s.review], after[s.review]);
  }

  // ---- The invariant ----

  /** The newest analysis is the current one, and the only one. */
  ghost predicate CurrentIsLast(analyses: seq<Analysis>) {
    forall i | 0 <= i < |analyses| :: analyses[i].current <==> i == |analyses| - 1
  }

  /** The current analysis is of exactly the text and rating the row holds. */
  ghost predicate CoversRow(analyses: seq<Analysis>, r: Review) {
    && analyses != []
    && var a := analyses[|analyses| - 1];
       a.current && a.input.content == r.content && a.input.rating == r.rating
  }

  ghost predicate KeyAnalysed(db: Db, k: Key) {
    && CurrentIsLast(db.AnalysesOf(k))
    && (db.AnalysesOf(k) != [] ==> k in db.reviews)
    && (k in db.reviews && db.reviews[k].status != New ==> CoversRow(db.AnalysesOf(k), db.reviews[k]))
  }

  ghost predicate AnalysisInv(db: Db) {
    forall k :: KeyAnalysed(db, k)
  }

  /** The idempotence test finds the row's analysis exactly when the current one covers the row under that model. */
  lemma {:induction false} FindCurrentExactly(analyses: seq<Analysis>, r: Review, model: string)
    requires CurrentIsLast(analyses)
    ensures FindCurrent(analyses, Input(model, r.rating, r.content)).Some?
            <==> CoversRow(analyses, r) && analyses[|analyses| - 1].input.model == model
  {
    if analyses != [] {
      NoCurrentFound(analyses[..|analyses| - 1], Input(model, r.rating, r.content));
    }
  }

  lemma {:induction false} NoCurrentFound(analyses: seq<Analysis>, input: Input)
    requires forall i | 0 <= i < |analyses| :: !analyses[i].current
    ensures FindCurrent(analyses, input).None?
  {
    if analyses != [] {
      NoCurrentFound(analyses[..|analyses| - 1], input);
    }
  }

  lemma CommitKeeps(db: Db, s: Snapshot, risk: Risk, now: int)
    requires AnalysisInv(db) && Honest(db.reviews, s)
    ensures AnalysisInv(Commit(db, s, risk, now).0)
  {
    var (after, res) := Commit(db, s, risk, now);
    forall k ensures KeyAnalysed(after, k) {
      assert KeyAnalysed(db, k);
    }
  }

  lemma IngestKeepsAnalyses(db: Db, v: Visit)
    requires AnalysisInv(db) && IntakeInv(db)
    ensures AnalysisInv(IngestOne(db, v).0)
  {
    var after := IngestOne(db, v).0;
    IngestShape(db, v);
    if v.raw < |db.raws| && db.raws[v.raw].norm.Some? {
      OutcomeMeansChange(db.raws, ReviewAt(db, db.raws[v.raw].key), v);
    }
    hide IngestOne, UpsertRow, IntakeInv, CurrentIsLast;
    forall k ensures KeyAnalysed(after, k) {
      assert KeyAnalysed(db, k);
    }
  }

  lemma SoftDeleteKeeps(db: Db, k: Key, now: int)
    requires AnalysisInv(db)
    ensures AnalysisInv(SoftDelete(db, k, now))
  {
    hide CurrentIsLast;
    forall k' ensures KeyAnalysed(SoftDelete(db, k, now), k') {
      assert KeyAnalysed(db, k');
    }
  }

  /** The test of the replay branch, made on the row as it is at the moment of the write. */
  ghost predicate StillCurrent(db: Db, k: Key) {
    k in db.reviews && exists model ::
      FindCurrent(db.AnalysesOf(k), Input(model, db.reviews[k].rating, db.reviews[k].content)).Some?
  }

  /**
   * The unfenced write of the replay branch keeps the invariant exactly when it changes nothing or the
   * branch's own test would still succeed on the present row.
   */
  lemma UnfencedMarkKeepsExactly(db: Db, k: Key, now: int)
    requires AnalysisInv(db)
    ensures AnalysisInv(MarkAnalyzed(db, k, now)) <==> MarkAnalyzed(db, k, now) == db || StillCurrent(db, k)
  {
    var after := MarkAnalyzed(db, k, now);
    assert KeyAnalysed(db, k);
    if after != db {
      var r := db.reviews[k];
      assert after.AnalysesOf(k) == db.AnalysesOf(k);
      if AnalysisInv(after) {
        assert KeyAnalysed(after, k);
        var history := db.AnalysesOf(k);
        FindCurrentExactly(history, r, history[|history| - 1].input.model);
      }
      if StillCurrent(db, k) {
        var model :| FindCurrent(db.AnalysesOf(k), Input(model, r.rating, r.content)).Some?;
        FindCurrentExactly(db.AnalysesOf(k), r, model);
        forall k' ensures KeyAnalysed(after, k') {
          assert KeyAnalysed(db, k');
        }
      }
    }
  }

  /** Every unanalysed live review is visible to the stale-new scan. */
  lemma UnanalysedIsVisible(db: Db, k: Key, cutoff: int)
    requires AnalysisInv(db)
    requires k in db.reviews && !db.reviews[k].deleted && db.reviews[k].updatedAt < cutoff
    requires !CoversRow(db.AnalysesOf(k), db.reviews[k])
    ensures k in StaleNew(db, cutoff)
  {
    assert KeyAnalysed(db, k);
  }
}
