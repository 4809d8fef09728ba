/** A run from the empty database in which the unfenced write of the replay branch hides an edit from every scan. */
module ReplayRace {
  import opened Base
  import opened RawLog
  import opened Tables
  import opened Ingest
  import opened Analyze
  import opened Routing
  import opened Pipeline

  const REVIEW := Key("google", "r1")
  const RULE := Rule(1, Low, [], 48, false)

  function Sent(text: string, at: int): Batch {
    Batch([Incoming(REVIEW, text, Some(Normalized("", None, text, None)), "", "")], at, [at])
  }

  /**
   * "good" is read, analysed and claimed; the source sends "bad"; worker 7 looks at the old text once more and
   * finds its analysis; then the edit is ingested, and then the worker marks.
   */
  const RACE: seq<Event> :=
    [Insert(Sent("good", 1)), IngestRaw(Visit(0, None, 2)), ReadRow(7, REVIEW, "m"), LookUp(7), Finish(7, Low, 3),
     Pipeline.RouteAnalysis(REVIEW, 0, RULE, 4), Insert(Sent("bad", 5)), ReadRow(7, REVIEW, "m"), LookUp(7),
     IngestRaw(Visit(1, None, 6)), MarkReplay(7, 8)]

  function Version(text: string, at: int): Raw {
    Raw(REVIEW, text, Some(Normalized("", None, text, None)), "", "", at, at)
  }

  function ReviewRow(raw: nat, text: string, status: ReviewStatus, version: nat, at: int): Review {
    Review(raw, "", None, text, None, "", None, status, false, version, at)
  }

  const HISTORY := [Analysis(Input("m", None, "good"), Low, true, 3)]
  const CASE := Case(Low, RULE, Some(0), Open, 4 + 48 * HOUR, None, 0, None)

  function RaceDb(n: nat): Db {
    var row := if n < 5 then ReviewRow(0, "good", New, 1, 2)
               else if n < 10 then ReviewRow(0, "good", Analyzed, 2, 3)
               else if n == 10 then ReviewRow(1, "bad", New, 3, 6) else ReviewRow(1, "bad", Analyzed, 4, 8);
    Db(if n == 0 then [] else if n < 7 then [Version("good", 1)] else [Version("good", 1), Version("bad", 5)], {},
       if n < 2 then map[] else map[REVIEW := row],
       if n < 5 then map[] else map[REVIEW := HISTORY],
       if n < 6 then map[] else map[REVIEW := CASE],
       if n < 6 then map[] else map[REVIEW := []], [])
  }

  function RaceWorkers(n: nat): map<nat, Phase> {
    match n
    case 3 => map[7 := Holding(Snapshot(REVIEW, "good", None, 1, "m"))]
    case 4 => map[7 := Computing(Snapshot(REVIEW, "good", None, 1, "m"))]
    case 8 => map[7 := Holding(Snapshot(REVIEW, "good", None, 2, "m"))]
    case 9 => map[7 := Marking(REVIEW)]
    case 10 => map[7 := Marking(REVIEW)]
    case _ => map[]
  }

  function RaceSys(n: nat): Sys {
    Sys(RaceDb(n), RaceWorkers(n))
  }

  lemma InsertStep(n: nat)
    requires n == 0 || n == 6
    ensures Next(RaceSys(n), RACE[n]) == RaceSys(n + 1) && Allowed(RaceSys(n), RACE[n])
  {
    var b := RACE[n].batch;
    var log := RaceSys(n).db.raws;
    assert b.reviews[..0] == [];
    assert InsertBatch(log, b.reviews[..0], b.now, b.ties[..0]) == (log, []);
    if n == 6 {
      LatestIsNewest(log, REVIEW, None, 0);
      assert Latest(log, REVIEW) == Some(0);
    }
    hide LatestBefore;
    assert InsertBatch(log, b.reviews, b.now, b.ties).0 == RaceDb(n + 1).raws;
  }

  lemma IngestStep(n: nat)
    requires n == 1 || n == 9
    ensures Next(RaceSys(n), RACE[n]) == RaceSys(n + 1) && Allowed(RaceSys(n), RACE[n])
  {
    assert IngestOne(RaceDb(n), RACE[n].visit).0.reviews == RaceDb(n + 1).reviews;
  }

  lemma ReadStep(n: nat)
    requires n == 2 || n == 7
    ensures Next(RaceSys(n), RACE[n]) == RaceSys(n + 1) && Allowed(RaceSys(n), RACE[n])
  {
  }

  lemma LookUpStep(n: nat)
    requires n == 3 || n == 8
    ensures Next(RaceSys(n), RACE[n]) == RaceSys(n + 1) && Allowed(RaceSys(n), RACE[n])
  {
    if n == 8 {
      assert FindCurrent(HISTORY, Input("m", None, "good")) == Some(0);
    } else {
      assert FindCurrent([], Input("m", None, "good")) == None;
    }
  }

  lemma FinishStep()
    ensures Next(RaceSys(4), RACE[4]) == RaceSys(5) && Allowed(RaceSys(4), RACE[4])
  {
    assert Retired([]) + [Analysis(Input("m", None, "good"), Low, true, 3)] == HISTORY;
    assert RaceWorkers(4) - {7} == map[];
  }

  lemma RouteStep()
    ensures Next(RaceSys(5), RACE[5]) == RaceSys(6) && Allowed(RaceSys(5), RACE[5])
  {
    assert Missing([], []) == [];
    assert RaceDb(5).AnalysesOf(REVIEW) == HISTORY;
  }

  lemma MarkStep()
    ensures Next(RaceSys(10), RACE[10]) == RaceSys(11)
  {
    assert RaceWorkers(10) - {7} == map[];
  }

  lemma RaceStep(n: nat)
    requires n < 11
    ensures Next(RaceSys(n), RACE[n]) == RaceSys(n + 1) && (n < 10 ==> Allowed(RaceSys(n), RACE[n]))
  {
    hide Next, RaceSys, Allowed;
    match n
    case 4 => FinishStep();
    case 5 => RouteStep();
    case 10 => MarkStep();
    case _ =>
      if n == 0 || n == 6 {
        InsertStep(n);
      } else if n == 1 || n == 9 {
        IngestStep(n);
      } else if n == 2 || n == 7 {
        ReadStep(n);
      } else {
        LookUpStep(n);
      }
  }

  lemma {:induction false} RaceRun(n: nat)
    requires n <= 11
    ensures Exec(Init, RACE[..n]) == RaceSys(n) && (n <= 10 ==> AllAllowed(Init, RACE[..n]))
  {
    hide Next, Allowed;
    if n == 0 {
      assert RaceSys(0) == Init;
    } else {
      hide RaceSys;
      RaceRun(n - 1);
      RaceStep(n - 1);
      ExecSnoc(Init, RACE[..n - 1], RACE[n - 1]);
      assert RACE[..n] == RACE[..n - 1] + [RACE[n - 1]];
    }
  }

  lemma ScansAreEmpty(cutoff: int)
    requires cutoff > 10
    ensures AllScansEmpty(RaceDb(11), cutoff)
  {
    var db := RaceDb(11);
    LatestIsNewest(db.raws, REVIEW, Some(cutoff), 1);
    LatestIsNewest(db.raws, REVIEW, Some(cutoff), 0);
    assert LatestBefore(db.raws, REVIEW, Some(cutoff)) == Some(1);
    hide LatestBefore;
    assert Unreflected(db, cutoff) == {};
    assert StaleNew(db, cutoff) == {};
    assert Unrouted(db, cutoff) == {} by {
      assert CurrentIndex(HISTORY) == Some(0);
      assert db.AnalysesOf(REVIEW) == HISTORY;
    }
  }

  lemma MarkIsNotFresh()
    ensures !Allowed(RaceSys(10), RACE[10])
  {
    var db := RaceDb(10);
    assert db.AnalysesOf(REVIEW) == HISTORY;
    forall model ensures FindCurrent(HISTORY, Input(model, None, "bad")).None? {
      assert FindCurrent(HISTORY[..0], Input(model, None, "bad")).None?;
    }
    assert !StillCurrent(db, REVIEW);
    assert MarkAnalyzed(db, REVIEW, 8).reviews[REVIEW].status == Analyzed;
  }

  /**
   * The row ends with "bad" and Analyzed, its only analysis is of "good", and no scan will ever pick it. Every
   * event but the last is allowed; the last is the one that the pipeline's invariant has to exclude.
   */
  lemma UnfencedReplayHidesAnEdit(cutoff: int)
    requires cutoff > 10
    ensures var db := Exec(Init, RACE).db;
            && AllAllowed(Init, RACE[..10]) && !Allowed(Exec(Init, RACE[..10]), RACE[10])
            && AllScansEmpty(db, cutoff)
            && REVIEW in db.reviews && !db.reviews[REVIEW].deleted
            && db.reviews[REVIEW].content == "bad" && db.reviews[REVIEW].status == Analyzed
            && db.AnalysesOf(REVIEW) == HISTORY && !CoversRow(db.AnalysesOf(REVIEW), db.reviews[REVIEW])
  {
    RaceRun(10);
    RaceRun(11);
    assert RACE[..11] == RACE;
    ScansAreEmpty(cutoff);
    MarkIsNotFresh();
    assert RaceDb(11).AnalysesOf(REVIEW) == HISTORY && "good" != "bad";
    hide Exec, AllAllowed, Allowed, AllScansEmpty;
  }
}
