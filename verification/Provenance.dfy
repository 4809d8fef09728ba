/** Where an analysis comes from, in every run: the read that took the text and the answer that was given for it. */
module Provenance {
  import opened Base
  import opened RawLog
  import opened Tables
  import opened Ingest
  import opened Analyze
  import opened Routing
  import opened Pipeline

  /** The stored analysis holds the answer of this event to this snapshot. */
  ghost predicate AnswerTo(a: Analysis, s: Snapshot, e: Event) {
    && e.Finish? && a.risk == e.risk && a.createdAt == e.at
    && a.input.model == s.model && a.input.content == s.content && a.input.rating == s.rating
  }

  /** The event is a worker's answer, and this is what it had read. */
  ghost predicate Answers(s: Sys, e: Event, snapshot: Snapshot) {
    e.Finish? && e.worker in s.workers && s.workers[e.worker] == Computing(snapshot)
  }

  ghost predicate SameAnswer(a: Analysis, b: Analysis) {
    a.risk == b.risk && a.input == b.input && a.createdAt == b.createdAt
  }

  /** A history grows by one answer at a time, to a snapshot of this very review, and keeps what it holds. */
  lemma HistoryStep(s: Sys, e: Event, k: Key)
    ensures var (before, after) := (s.db.AnalysesOf(k), Next(s, e).db.AnalysesOf(k));
            && |before| <= |after| <= |before| + 1
            && (forall i | 0 <= i < |before| :: SameAnswer(after[i], before[i]))
            && (|after| > |before| ==>
                  e.Finish? && e.worker in s.workers && s.workers[e.worker].Computing?
                  && s.workers[e.worker].snapshot.review == k
                  && AnswerTo(after[|before|], s.workers[e.worker].snapshot, e))
  {
    hide InsertBatch, NextWorkers;
    match e
    case IngestRaw(v) =>
      IngestShape(s.db, v);
      hide IngestOne, UpsertRow;
    case Finish(w, risk, at) =>
      if w in s.workers && s.workers[w].Computing? {
        CommitExactly(s.db, s.workers[w].snapshot, risk, at);
        hide Commit;
      }
    case _ =>
      hide IngestOne, RouteRow, Missing, Notices;
  }

  /**
   * In every run each analysis has the risk, model, text and rating of one answer: a worker had read them from
   * this review when it gave that risk.
   */
  lemma {:induction false} AnalysisComesFromAnswer(trace: seq<Event>, k: Key, i: nat) returns (p: nat, s: Snapshot)
    requires i < |Exec(Init, trace).db.AnalysesOf(k)|
    ensures p < |trace| && Answers(Exec(Init, trace[..p]), trace[p], s) && s.review == k
    ensures AnswerTo(Exec(Init, trace).db.AnalysesOf(k)[i], s, trace[p])
  {
    hide Next;
    assert Exec(Init, []) == Init;
    var n := |trace| - 1;
    var front := trace[..n];
    assert trace == front + [trace[n]];
    ExecSnoc(Init, front, trace[n]);
    var before := Exec(Init, front);
    HistoryStep(before, trace[n], k);
    hide Exec;
    if i < |before.db.AnalysesOf(k)| {
      p, s := AnalysisComesFromAnswer(front, k, i);
      assert front[..p] == trace[..p];
    } else {
      p, s := n, before.workers[trace[n].worker].snapshot;
    }
  }

  /** The event read this snapshot from the live row. */
  ghost predicate ReadFrom(s: Sys, e: Event, w: nat, snapshot: Snapshot) {
    && e.ReadRow? && e.worker == w && e.key == snapshot.review && e.model == snapshot.model
    && e.key in s.db.reviews && !s.db.reviews[e.key].deleted
    && s.db.reviews[e.key].content == snapshot.content && s.db.reviews[e.key].rating == snapshot.rating
    && s.db.reviews[e.key].version == snapshot.version
  }

  lemma SnapshotStep(s: Sys, e: Event, w: nat)
    requires w in Next(s, e).workers && !Next(s, e).workers[w].Marking?
    ensures var snapshot := Next(s, e).workers[w].snapshot;
            || (w in s.workers && !s.workers[w].Marking? && s.workers[w].snapshot == snapshot)
            || ReadFrom(s, e, w, snapshot)
  {
    hide NextDb, FindCurrent;
  }

  /** In every run what a worker holds was read from the row of that review, all of it at one moment. */
  lemma {:induction false} SnapshotComesFromRead(trace: seq<Event>, w: nat) returns (q: nat)
    requires w in Exec(Init, trace).workers && !Exec(Init, trace).workers[w].Marking?
    ensures q < |trace| && ReadFrom(Exec(Init, trace[..q]), trace[q], w, Exec(Init, trace).workers[w].snapshot)
  {
    hide Next, ReadFrom;
    assert Exec(Init, []) == Init;
    var n := |trace| - 1;
    var front := trace[..n];
    assert trace == front + [trace[n]];
    ExecSnoc(Init, front, trace[n]);
    var before := Exec(Init, front);
    SnapshotStep(before, trace[n], w);
    hide Exec;
    if ReadFrom(before, trace[n], w, Exec(Init, trace).workers[w].snapshot) {
      q := n;
    } else {
      q := SnapshotComesFromRead(front, w);
      assert front[..q] == trace[..q];
    }
  }

  /**
   * In every reachable state in which the three scans find nothing, the case of a live review is at least as
   * risky as the answer that was given for exactly the text and rating it shows.
   */
  lemma CaseCoversTheAnswer(trace: seq<Event>, cutoff: int, k: Key) returns (p: nat, s: Snapshot)
    requires AllAllowed(Init, trace)
    requires PastAll(Exec(Init, trace).db, cutoff) && AllScansEmpty(Exec(Init, trace).db, cutoff)
    requires k in Exec(Init, trace).db.reviews && !Exec(Init, trace).db.reviews[k].deleted
    ensures p < |trace| && Answers(Exec(Init, trace[..p]), trace[p], s) && s.review == k
    ensures var db := Exec(Init, trace).db;
            && s.content == db.reviews[k].content && s.rating == db.reviews[k].rating
            && k in db.cases
            && (trace[p].risk == High ==> db.cases[k].risk == High)
            && (trace[p].risk == Medium ==> db.cases[k].risk != Low)
  {
    hide Exec, AllAllowed, PastAll, AllScansEmpty, Answers;
    QuietMeansConsistent(trace, cutoff);
    var db := Exec(Init, trace).db;
    assert AnalysedAndClaimed(db, k);
    p, s := AnalysisComesFromAnswer(trace, k, |db.AnalysesOf(k)| - 1);
  }

  // ---- Who ended a case ----

  /** The event gave the case this analysis, which it did not have. */
  ghost predicate Claims(s: Sys, e: Event, k: Key, id: nat) {
    && e.RouteAnalysis? && e.key == k && e.id == id && id < |s.db.AnalysesOf(k)|
    && (k in s.db.cases ==> s.db.cases[k].analysis != Some(id))
  }

  /** One step: routing an analysis that the case did not have leaves it open or in progress. */
  lemma CaseStep(s: Sys, e: Event, k: Key)
    requires k in Next(s, e).db.cases
    ensures var c := Next(s, e).db.cases[k];
            || (k in s.db.cases && c == s.db.cases[k])
            || (k in s.db.cases && e.SetCaseStatus? && e.key == k && c.status == e.to
                && c.analysis == s.db.cases[k].analysis
                && (c.status == Resolved || (c.status == Closed ==> s.db.cases[k].status == Resolved)))
            || (k in s.db.cases && c.status == s.db.cases[k].status && c.analysis == s.db.cases[k].analysis)
            || (c.analysis.Some? && Claims(s, e, k, c.analysis.value) && (c.status == Open || c.status == InProgress))
  {
    hide NextWorkers, IngestOne, InsertBatch, Missing, Notices, Retired;
    if e.IngestRaw? {
      IngestShape(s.db, e.visit);
    } else if e.RouteAnalysis? && e.id < |s.db.AnalysesOf(e.key)| {
      RouteOutcomeExactly(s.db, e.key, e.id, e.rule, e.at);
      hide RouteCase;
    }
  }

  /** In every run a case has an analysis because an event gave it to it, and has kept it since. */
  lemma {:induction false} ClaimComesFromRouting(trace: seq<Event>, k: Key) returns (p: nat)
    requires k in Exec(Init, trace).db.cases
    ensures var c := Exec(Init, trace).db.cases[k];
            c.analysis.Some? && p < |trace| && Claims(Exec(Init, trace[..p]), trace[p], k, c.analysis.value)
  {
    hide Next;
    assert Exec(Init, []) == Init;
    var n := |trace| - 1;
    var front := trace[..n];
    assert trace == front + [trace[n]];
    ExecSnoc(Init, front, trace[n]);
    CaseStep(Exec(Init, front), trace[n], k);
    hide Exec, Claims;
    var c := Exec(Init, trace).db.cases[k];
    if c.analysis.Some? && Claims(Exec(Init, front), trace[n], k, c.analysis.value) {
      p := n;
    } else {
      p := ClaimComesFromRouting(front, k);
      assert front[..p] == trace[..p];
    }
  }

  /**
   * In every run a resolved or closed case was set resolved after it had been given the analysis that it claims:
   * an analysis it did not have when it ended opens it again.
   */
  lemma {:induction false} EndedAfterItsClaim(trace: seq<Event>, k: Key) returns (p: nat, q: nat)
    requires k in Exec(Init, trace).db.cases
    requires Exec(Init, trace).db.cases[k].status == Resolved || Exec(Init, trace).db.cases[k].status == Closed
    ensures var c := Exec(Init, trace).db.cases[k];
            && c.analysis.Some? && p < q < |trace|
            && Claims(Exec(Init, trace[..p]), trace[p], k, c.analysis.value)
            && trace[q].SetCaseStatus? && trace[q].key == k && trace[q].to == Resolved
  {
    hide Next;
    assert Exec(Init, []) == Init;
    var n := |trace| - 1;
    var front := trace[..n];
    assert trace == front + [trace[n]];
    ExecSnoc(Init, front, trace[n]);
    CaseStep(Exec(Init, front), trace[n], k);
    hide Exec, Claims;
    var c := Exec(Init, trace).db.cases[k];
    if trace[n].SetCaseStatus? && trace[n].key == k && trace[n].to == Resolved {
      p := ClaimComesFromRouting(front, k);
      q := n;
      assert front[..p] == trace[..p];
    } else {
      p, q := EndedAfterItsClaim(front, k);
      assert front[..p] == trace[..p];
    }
  }

  /**
   * In every reachable state in which the three scans find nothing: where the case of a live review is resolved
   * or closed, it was resolved after an analysis of exactly the text and rating that the review shows was routed.
   */
  lemma EndedCaseSawThePresentText(trace: seq<Event>, cutoff: int, k: Key) returns (p: nat, q: nat)
    requires AllAllowed(Init, trace)
    requires PastAll(Exec(Init, trace).db, cutoff) && AllScansEmpty(Exec(Init, trace).db, cutoff)
    requires k in Exec(Init, trace).db.reviews && !Exec(Init, trace).db.reviews[k].deleted
    requires k in Exec(Init, trace).db.cases
    requires Exec(Init, trace).db.cases[k].status == Resolved || Exec(Init, trace).db.cases[k].status == Closed
    ensures p < q < |trace| && trace[p].RouteAnalysis? && trace[p].key == k
    ensures trace[q].SetCaseStatus? && trace[q].key == k && trace[q].to == Resolved
    ensures var db := Exec(Init, trace).db;
            && k in db.analyses && trace[p].id < |db.analyses[k]|
            && db.analyses[k][trace[p].id].input.content == db.reviews[k].content
            && db.analyses[k][trace[p].id].input.rating == db.reviews[k].rating
  {
    hide Exec, AllAllowed, PastAll, AllScansEmpty;
    QuietMeansConsistent(trace, cutoff);
    assert AnalysedAndClaimed(Exec(Init, trace).db, k);
    p, q := EndedAfterItsClaim(trace, k);
  }
}
