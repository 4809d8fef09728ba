/** A crawl and a pipeline run that meet every premise of EndToEnd, with one review shown, analysed and claimed. */
module Witness {
  import opened Base
  import opened RawLog
  import opened Tables
  import opened Ingest
  import opened Analyze
  import opened Remote
  import GoogleAdapter
  import Crawl = CrawlJobs
  import PresentVersion
  import PageCap
  import opened Pipeline
  import Routing
  import EndToEnd

  const ENTRY := Item("r1", 1, Some(3), true, "h", "ann", "cold food", Some(1))
  const PLACE := Crawl.Place("google", "page", "loc")
  const START := Crawl.World(PLACE, 3, [ENTRY], 1, [], [], map[])
  const GOT := GoogleAdapter.FetchResult([ENTRY], 1, false)
  const CRAWL := PageCap.FirstJob(GOT, 5, [0])
  const DECODE: string -> Option<Normalized> := _ => Crawl.NormalOf(ENTRY)

  const REVIEW := Key("google", "r1")
  const RAW := Row(Crawl.ToRaw(PLACE, ENTRY), 5, 0)

  function World(n: nat): Crawl.World
    requires n <= 6
  {
    PageCap.FirstWorld(START, GOT, 5, [0], n)
  }

  // ---- The crawl ----

  lemma OneListed()
    ensures Listing([ENTRY]) == [ENTRY] && Clocked([ENTRY], 1)
  {
    assert [ENTRY][..0] == [];
    assert Listing([]) == [];
    assert Place([], ENTRY) == [ENTRY];
  }

  lemma FetchGets()
    ensures GoogleAdapter.StillFetch(Listing([ENTRY]), Crawl.ZERO, 3) == GOT
    ensures Clocked([ENTRY], 1)
  {
    hide Listing, Clocked;
    OneListed();
    assert GoogleAdapter.Reach([ENTRY], 0, 1) == 1;
    assert GoogleAdapter.Taken([ENTRY], 0, 0, 3) == [];
    assert GoogleAdapter.NewestOf([ENTRY], 0, 0, 0) == 0;
  }

  lemma OneRow()
    ensures InsertBatch([], Crawl.ToInsert(PLACE, [ENTRY]), 5, [0]).0 == [RAW]
    ensures Crawl.ToInsert(PLACE, [ENTRY]) == [Crawl.ToRaw(PLACE, ENTRY)]
  {
    var batch := Crawl.ToInsert(PLACE, [ENTRY]);
    assert batch == [Crawl.ToRaw(PLACE, ENTRY)];
    assert InsertBatch([], batch[..0], 5, [0][..0]) == ([], []);
  }

  lemma EventIsTimely(n: nat)
    requires n < 6
    ensures PresentVersion.InTurn(World(n), CRAWL[n])
    ensures EndToEnd.HashesNamePayloads(World(n), CRAWL[n], DECODE)
  {
    OneRow();
    hide InsertBatch, Crawl.ToInsert;
    if n == 4 {
      assert PresentVersion.LastOf([Crawl.ToRaw(PLACE, ENTRY)], REVIEW) == Some("h");
    }
  }

  lemma {:induction false} CrawlIsTimely(n: nat)
    requires n <= 6
    ensures PresentVersion.AllInTurn(World(n), CRAWL[n..])
    ensures EndToEnd.AllHashesNamePayloads(World(n), CRAWL[n..], DECODE)
    decreases 6 - n
  {
    hide World, Crawl.Next, PresentVersion.InTurn, EndToEnd.HashesNamePayloads;
    if n < 6 {
      EventIsTimely(n);
      WorldStep(n);
      CrawlIsTimely(n + 1);
      assert CRAWL[n..][0] == CRAWL[n] && CRAWL[n..][1..] == CRAWL[n + 1..];
    }
  }

  lemma WorldStep(n: nat)
    requires n < 6
    ensures Crawl.Next(World(n), CRAWL[n]) == World(n + 1)
  {
    hide PageCap.FirstWorld, Crawl.Next;
    PageCap.FirstStep(START, GOT, 5, [0], n);
  }

  lemma WorldEnds()
    ensures World(0) == START
    ensures var end := World(6);
            && |end.jobs| == 1 && end.jobs[0].status == Crawl.Succeeded && end.jobs[0].clean && end.jobs[0].cursor == 1
            && end.stored == [ENTRY] && end.maxRating == 3 && end.raws == [RAW] && end.place == PLACE
  {
    OneRow();
    hide InsertBatch, Crawl.ToInsert;
  }

  lemma StartMeets()
    ensures Crawl.Fresh(START) && PresentVersion.PresentInv(START) && EndToEnd.PayloadInv(START, DECODE)
  {
  }

  lemma CrawlMeets()
    ensures EndToEnd.Crawled(START, CRAWL, DECODE, 0)
    ensures var end := Crawl.Exec(START, CRAWL);
            && end.raws == [RAW] && end.place == PLACE && end.stored == [ENTRY] && end.maxRating == 3
            && |end.jobs| == 1 && end.jobs[0].cursor == 1
  {
    hide World, Crawl.Exec, Crawl.AllAllowed, PresentVersion.AllInTurn, EndToEnd.AllHashesNamePayloads, Crawl.Fresh,
         PresentVersion.PresentInv, EndToEnd.PayloadInv;
    CrawlIsTimely(0);
    WorldEnds();
    assert CRAWL[0..] == CRAWL;
    CrawlRuns();
    StartMeets();
  }

  lemma CrawlRuns()
    ensures Crawl.Exec(START, CRAWL) == World(6) && Crawl.AllAllowed(START, CRAWL)
  {
    hide GoogleAdapter.StillFetch, Listing, Crawl.Exec, Crawl.AllAllowed, PageCap.FirstWorld, Clocked;
    FetchGets();
    PageCap.FirstRun(START, 5, [0], 6);
    assert CRAWL[..6] == CRAWL;
  }

  // ---- The pipeline ----

  const RULE := Rule(1, Low, [], 48, false)

  const RUN: seq<Event> :=
    [Insert(Batch([Crawl.ToRaw(PLACE, ENTRY)], 5, [0])), IngestRaw(Visit(0, None, 6)), ReadRow(7, REVIEW, "m"),
     LookUp(7), Finish(7, Low, 7), Pipeline.RouteAnalysis(REVIEW, 0, RULE, 8)]

  const INPUT := Input("m", Some(30), "cold food")
  const HISTORY := [Analysis(INPUT, Low, true, 7)]
  const CASE := Case(Low, RULE, Some(0), Open, 8 + 48 * Routing.HOUR, None, 0, None)

  function RunDb(n: nat): Db {
    var row := Review(0, "ann", Some(30), "cold food", Some(1), "page", None, if n < 5 then New else Analyzed, false,
                      if n < 5 then 1 else 2, if n < 5 then 6 else 7);
    Db(if n == 0 then [] else [RAW], {},
       if n < 2 then map[] else map[REVIEW := row],
       if n < 5 then map[] else map[REVIEW := HISTORY],
       if n < 6 then map[] else map[REVIEW := CASE],
       if n < 6 then map[] else map[REVIEW := []], [])
  }

  function RunSys(n: nat): Sys {
    var snapshot := Snapshot(REVIEW, "cold food", Some(30), 1, "m");
    Sys(RunDb(n), match n
                  case 3 => map[7 := Holding(snapshot)]
                  case 4 => map[7 := Computing(snapshot)]
                  case _ => map[])
  }

  lemma IntakeStep(n: nat)
    requires n < 2
    ensures Next(RunSys(n), RUN[n]) == RunSys(n + 1) && Allowed(RunSys(n), RUN[n])
  {
    if n == 0 {
      OneRow();
      hide InsertBatch;
    } else {
      EndToEnd.StarsAreTenths(3);
      hide Tenths;
      assert IngestOne(RunDb(1), RUN[1].visit).0.reviews == RunDb(2).reviews;
    }
  }

  lemma AnalysisStep(n: nat)
    requires 2 <= n < 5
    ensures Next(RunSys(n), RUN[n]) == RunSys(n + 1) && Allowed(RunSys(n), RUN[n])
  {
    if n == 3 {
      assert FindCurrent([], INPUT) == None;
    } else if n == 4 {
      assert Retired([]) + [Analysis(INPUT, Low, true, 7)] == HISTORY;
      assert RunSys(4).workers - {7} == map[];
    }
  }

  lemma CaseStep()
    ensures Next(RunSys(5), RUN[5]) == RunSys(6) && Allowed(RunSys(5), RUN[5])
  {
    assert Routing.Missing([], []) == [];
    assert RunDb(5).AnalysesOf(REVIEW) == HISTORY;
  }

  lemma {:induction false} RunTo(n: nat)
    requires n <= 6
    ensures Exec(Init, RUN[..n]) == RunSys(n) && AllAllowed(Init, RUN[..n])
  {
    hide Next, Allowed;
    if n == 0 {
      assert RunSys(0) == Init;
    } else {
      hide RunSys;
      RunTo(n - 1);
      if n <= 2 {
        IntakeStep(n - 1);
      } else if n <= 5 {
        AnalysisStep(n - 1);
      } else {
        CaseStep();
      }
      ExecSnoc(Init, RUN[..n - 1], RUN[n - 1]);
      assert RUN[..n] == RUN[..n - 1] + [RUN[n - 1]];
    }
  }

  lemma RunIsQuiet(cutoff: int)
    requires cutoff > 10
    ensures PastAll(RunDb(6), cutoff) && AllScansEmpty(RunDb(6), cutoff)
  {
    var db := RunDb(6);
    LatestIsNewest(db.raws, REVIEW, Some(cutoff), 0);
    assert LatestBefore(db.raws, REVIEW, Some(cutoff)) == Some(0);
    hide LatestBefore;
    assert Unreflected(db, cutoff) == {};
    assert StaleNew(db, cutoff) == {};
    assert Routing.Unrouted(db, cutoff) == {} by {
      assert Routing.CurrentIndex(HISTORY) == Some(0);
      assert db.AnalysesOf(REVIEW) == HISTORY;
    }
  }

  lemma RunMeets(cutoff: int)
    requires cutoff > 10
    ensures EndToEnd.QuietOver([RAW], RUN, cutoff)
    ensures Exec(Init, RUN).db == RunDb(6)
  {
    RunTo(6);
    RunIsQuiet(cutoff);
    assert RUN[..6] == RUN;
    hide Exec, AllAllowed, PastAll, AllScansEmpty;
  }

  /** All premises meet, and the fetched review, with the highest star that is kept, is live, shown and claimed. */
  lemma FetchedReviewIsShown(cutoff: int)
    requires cutoff > 10
    ensures EndToEnd.Crawled(START, CRAWL, DECODE, 0)
    ensures EndToEnd.QuietOver(Crawl.Exec(START, CRAWL).raws, RUN, cutoff)
    ensures ENTRY.star == Some(Crawl.Exec(START, CRAWL).maxRating) && ENTRY in Crawl.Exec(START, CRAWL).stored
    ensures var db := Exec(Init, RUN).db;
            && REVIEW in db.reviews && !db.reviews[REVIEW].deleted
            && db.reviews[REVIEW].author == "ann" && db.reviews[REVIEW].content == "cold food"
            && db.reviews[REVIEW].rating == Some(30) && db.reviews[REVIEW].postedAt == Some(1)
            && EndToEnd.ClaimedAs(db, REVIEW, "cold food", Some(30))
  {
    CrawlMeets();
    RunMeets(cutoff);
    hide Crawl.Exec, EndToEnd.Crawled, EndToEnd.QuietOver, Exec, EndToEnd.ClaimedAs;
    EndToEnd.ServiceIsShown(START, CRAWL, DECODE, 0, ENTRY, 3, RUN, cutoff);
  }
}
