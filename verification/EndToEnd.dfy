/** From the review service to the case: crawling and the pipeline together. */
module EndToEnd {
  import opened Base
  import opened RawLog
  import opened Tables
  import opened Remote
  import opened CrawlJobs
  import opened PresentVersion
  import Ingest
  import Analyze
  import Pipeline
  import Routing
  import GoogleAdapter
  import PageCap

  // ---- Rows keep what was fetched ----

  /** The content hash covers the whole payload: `decode` is what the normalizer makes of the payload of a hash. */
  ghost predicate Decodes(decode: string -> Option<Normalized>, x: Item) {
    NormalOf(x) == decode(x.hash)
  }

  ghost predicate HashesNamePayloads(w: World, e: Event, decode: string -> Option<Normalized>) {
    match e
    case RemoteChange(c) => Decodes(decode, NewEntry(w.stored, c))
    case FetchOk(_, _, _, out) => forall y | y in out :: Decodes(decode, y)
    case OtherInsert(b) => forall r | r in b.reviews :: r.norm == decode(r.hash)
    case _ => true
  }

  ghost predicate AllHashesNamePayloads(w: World, trace: seq<Event>, decode: string -> Option<Normalized>)
    decreases |trace|
  {
    trace != [] ==>
      HashesNamePayloads(w, trace[0], decode) && AllHashesNamePayloads(Next(w, trace[0]), trace[1..], decode)
  }

  ghost predicate RowsDecode(raws: seq<Raw>, decode: string -> Option<Normalized>) {
    forall i | 0 <= i < |raws| :: raws[i].norm == decode(raws[i].hash)
  }

  ghost predicate ItemsDecode(items: seq<Item>, decode: string -> Option<Normalized>) {
    forall y | y in items :: Decodes(decode, y)
  }

  ghost predicate PayloadInv(w: World, decode: string -> Option<Normalized>) {
    && RowsDecode(w.raws, decode) && ItemsDecode(w.stored, decode)
    && forall s | s in w.workers && w.workers[s].Fetched? :: ItemsDecode(w.workers[s].out, decode)
  }

  lemma RowsStayDecoded(raws: seq<Raw>, reviews: seq<Incoming>, at: int, ties: seq<int>,
                        decode: string -> Option<Normalized>)
    requires |reviews| == |ties| && RowsDecode(raws, decode)
    requires forall i | 0 <= i < |reviews| :: reviews[i].norm == decode(reviews[i].hash)
    ensures RowsDecode(InsertBatch(raws, reviews, at, ties).0, decode)
  {
    var after := InsertBatch(raws, reviews, at, ties).0;
    forall j | 0 <= j < |after| ensures after[j].norm == decode(after[j].hash) {
      if j < |raws| {
        assert after[j] == raws[j];
      } else {
        var i := NewRowsAreInputs(raws, reviews, at, ties, j);
      }
    }
  }

  lemma RowsStep(w: World, e: Event, decode: string -> Option<Normalized>)
    requires PayloadInv(w, decode) && HashesNamePayloads(w, e, decode)
    ensures RowsDecode(Next(w, e).raws, decode)
  {
    hide InsertBatch, HasOpenJob, IsLastSucceeded, RowsDecode;
    match e
    case OtherInsert(b) =>
      if b.Valid() {
        forall i | 0 <= i < |b.reviews| ensures b.reviews[i].norm == decode(b.reviews[i].hash) {
          assert b.reviews[i] in b.reviews;
        }
        RowsStayDecoded(w.raws, b.reviews, b.now, b.ties, decode);
      }
    case InsertOk(s, at, ties) =>
      if s in w.workers && w.workers[s].Fetched? && |ties| == |w.workers[s].out| {
        var out := w.workers[s].out;
        assert ItemsDecode(out, decode);
        assert forall i | 0 <= i < |out| :: out[i] in out;
        RowsStayDecoded(w.raws, ToInsert(w.place, out), at, ties, decode);
      }
    case _ =>
  }

  lemma ItemsStep(w: World, e: Event, decode: string -> Option<Normalized>)
    requires PayloadInv(w, decode) && HashesNamePayloads(w, e, decode)
    ensures ItemsDecode(Next(w, e).stored, decode)
    ensures forall s | s in Next(w, e).workers && Next(w, e).workers[s].Fetched? ::
              ItemsDecode(Next(w, e).workers[s].out, decode)
  {
    hide InsertBatch, HasOpenJob, IsLastSucceeded, RowsDecode, Decodes;
    if e.RemoteChange? {
      forall y | y in Next(w, e).stored ensures y in w.stored || y == NewEntry(w.stored, e.change) {
      }
    }
  }

  lemma {:induction false} RunKeepsPayloads(w: World, trace: seq<Event>, decode: string -> Option<Normalized>)
    requires PayloadInv(w, decode) && AllHashesNamePayloads(w, trace, decode)
    ensures PayloadInv(Exec(w, trace), decode)
    decreases |trace|
  {
    if trace != [] {
      RowsStep(w, trace[0], decode);
      ItemsStep(w, trace[0], decode);
      hide Next, RowsDecode, ItemsDecode, HashesNamePayloads;
      RunKeepsPayloads(Next(w, trace[0]), trace[1..], decode);
    }
  }

  // ---- What the service holds is what the tables show ----

  /** A timely history in which job `j` succeeded without a cap hit behind it. */
  ghost predicate Crawled(w: World, crawl: seq<Event>, decode: string -> Option<Normalized>, j: nat) {
    && Fresh(w) && PresentInv(w) && PayloadInv(w, decode)
    && AllAllowed(w, crawl) && AllInTurn(w, crawl) && AllHashesNamePayloads(w, crawl, decode)
    && var end := Exec(w, crawl);
       j < |end.jobs| && end.jobs[j].status == Succeeded && end.jobs[j].clean
  }

  /** A run of the pipeline over a log after which the three scans find nothing. */
  ghost predicate QuietOver(raws: seq<Raw>, run: seq<Pipeline.Event>, cutoff: int) {
    var db := Pipeline.Exec(Pipeline.Init, run).db;
    && Pipeline.AllAllowed(Pipeline.Init, run) && db.raws == raws
    && Pipeline.PastAll(db, cutoff) && Pipeline.AllScansEmpty(db, cutoff)
  }

  lemma NewestRowIsEntry(w: World, crawl: seq<Event>, decode: string -> Option<Normalized>, j: nat, x: Item, star: nat)
    requires Crawled(w, crawl, decode, j) && x in Exec(w, crawl).stored
    requires x.readable && x.star == Some(star) && star <= Exec(w, crawl).maxRating
    requires 0 < x.time <= Exec(w, crawl).jobs[j].cursor
    ensures var end := Exec(w, crawl);
            var latest := Latest(end.raws, Key(end.source, x.id));
            latest.Some? && end.raws[latest.value].hash == x.hash && end.raws[latest.value].norm == NormalOf(x)
    ensures NormalOf(x).Some?
  {
    hide Exec, AllAllowed, AllInTurn, AllHashesNamePayloads, PresentInv, PayloadInv, LatestBefore;
    assert Wanted(x, ZERO, Exec(w, crawl).jobs[j].cursor, Exec(w, crawl).maxRating);
    SucceededMeansPresent(w, crawl, j, x);
    RunKeepsPayloads(w, crawl, decode);
    PayloadFacts(Exec(w, crawl), decode);
  }

  lemma PayloadFacts(w: World, decode: string -> Option<Normalized>)
    requires PayloadInv(w, decode)
    ensures RowsDecode(w.raws, decode) && ItemsDecode(w.stored, decode)
  {
  }

  lemma NotQuarantined(run: seq<Pipeline.Event>, i: nat)
    requires Pipeline.AllAllowed(Pipeline.Init, run)
    requires var db := Pipeline.Exec(Pipeline.Init, run).db;
             i < |db.raws| && db.raws[i].norm.Some?
    ensures i !in Pipeline.Exec(Pipeline.Init, run).db.quarantine
  {
    hide Pipeline.Exec, Pipeline.AllAllowed, InOrder;
    Pipeline.InitInv();
    Pipeline.RunKeepsInv(Pipeline.Init, run);
  }

  /** The newest analysis is of this text and rating, is the only current one, and the case claims it at its risk. */
  ghost predicate ClaimedAs(db: Db, k: Key, text: string, rating: Option<int>) {
    && k in db.analyses && db.analyses[k] != []
    && var history := db.analyses[k];
       var last := |history| - 1;
       && (forall i | 0 <= i < |history| :: history[i].current <==> i == last)
       && history[last].input.content == text && history[last].input.rating == rating
       && k in db.cases && db.cases[k].analysis == Some(last)
       && (history[last].risk == High ==> db.cases[k].risk == High)
       && (history[last].risk == Medium ==> db.cases[k].risk != Low)
  }

  lemma ClaimedInFields(db: Db, k: Key)
    requires k in db.reviews && Pipeline.AnalysedAndClaimed(db, k)
    ensures ClaimedAs(db, k, db.reviews[k].content, db.reviews[k].rating)
  {
  }

  lemma StarsAreTenths(star: nat)
    ensures Ingest.Rounded(Some(star as real)) == Some(10 * star)
  {
    Ingest.WholeTenths(10 * star, star as real);
  }

  lemma ShownRowIsEntry(r: Review, raw: Raw, x: Item)
    requires Ingest.Shows(r, raw) && raw.norm == NormalOf(x) && x.star.Some? && x.readable
    ensures r.author == x.author && r.content == x.comment && r.postedAt == x.posted
    ensures r.rating == Some(10 * x.star.value)
  {
    StarsAreTenths(x.star.value);
    hide Ingest.Tenths, Ingest.Fits;
  }

  /**
   * Crawling and the pipeline together: after a timely crawl history that filled the log, and any run of the
   * pipeline over that log after which the three scans find nothing: every readable review with a known star of
   * at most the maximum, below the cursor of a clean succeeded job, is in the tables with the author, rating, text
   * and time that the service holds; and if it is live, its newest analysis is of exactly that, is its only current
   * one, and is claimed by its case.
   */
  lemma ServiceIsShown(w: World, crawl: seq<Event>, decode: string -> Option<Normalized>, j: nat, x: Item, star: nat,
                       run: seq<Pipeline.Event>, cutoff: int)
    requires Crawled(w, crawl, decode, j) && x in Exec(w, crawl).stored
    requires x.readable && x.star == Some(star) && star <= Exec(w, crawl).maxRating
    requires 0 < x.time <= Exec(w, crawl).jobs[j].cursor
    requires QuietOver(Exec(w, crawl).raws, run, cutoff)
    ensures var db := Pipeline.Exec(Pipeline.Init, run).db;
            var k := Key(Exec(w, crawl).source, x.id);
            && k in db.reviews
            && db.reviews[k].author == x.author && db.reviews[k].content == x.comment
            && db.reviews[k].postedAt == x.posted && db.reviews[k].rating == Some(10 * star)
            && (!db.reviews[k].deleted ==> ClaimedAs(db, k, x.comment, Some(10 * star)))
  {
    hide Exec, Crawled, Pipeline.Exec, Pipeline.AllAllowed, Pipeline.PastAll, Pipeline.AllScansEmpty,
         Pipeline.AnalysedAndClaimed, Ingest.Shows, LatestBefore, NormalOf;
    NewestRowIsEntry(w, crawl, decode, j, x, star);
    var db := Pipeline.Exec(Pipeline.Init, run).db;
    var k := Key(Exec(w, crawl).source, x.id);
    Pipeline.QuietMeansConsistent(run, cutoff);
    assert Pipeline.ShowsNewest(db, k);
    var latest := Latest(db.raws, k).value;
    NotQuarantined(run, latest);
    ShownRowIsEntry(db.reviews[k], db.raws[latest], x);
    if !db.reviews[k].deleted {
      ClaimedInFields(db, k);
    }
  }
}
