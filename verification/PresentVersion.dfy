/**
 * A row somewhere in the log is not the row that reviews show: when the newest row of a review is the version
 * the service holds, in one insertion and over whole crawl histories, and what a late insertion does to it.
 */
module PresentVersion {
  import opened Base
  import opened RawLog
  import opened Remote
  import opened CrawlJobs
  import opened LaterStarts
  import GoogleAdapter

  // ---- The newest row after an insertion ----

  function LatestHash(log: seq<Raw>, k: Key): Option<string> {
    match Latest(log, k)
    case None => None
    case Some(i) => Some(log[i].hash)
  }

  /** The hash that the batch has last for a key. */
  function LastOf(reviews: seq<Incoming>, k: Key): Option<string> {
    if reviews == [] then None
    else
      var n := |reviews| - 1;
      if reviews[n].key == k then Some(reviews[n].hash) else LastOf(reviews[..n], k)
  }

  lemma LatestHashSnoc(log: seq<Raw>, r: Raw, k: Key)
    requires InOrder(log + [r])
    ensures LatestHash(log + [r], k) == if r.key == k then Some(r.hash) else LatestHash(log, k)
  {
    var longer := log + [r];
    assert longer[..|log|] == log;
    if r.key == k && Latest(log, k).Some? {
      assert Newer(longer[|log|], longer[Latest(log, k).value]);
    }
  }

  /** In lock order, the newest row of a key after a batch is what the batch has last for it, if anything. */
  lemma {:induction false} LatestAfterBatch(log: seq<Raw>, reviews: seq<Incoming>, now: int, ties: seq<int>, k: Key)
    requires |reviews| == |ties|
    requires InOrder(InsertBatch(log, reviews, now, ties).0)
    ensures LatestHash(InsertBatch(log, reviews, now, ties).0, k)
            == if LastOf(reviews, k).Some? then LastOf(reviews, k) else LatestHash(log, k)
  {
    hide InOrder, LatestBefore, LatestHash;
    if reviews != [] {
      var n := |reviews| - 1;
      var before := InsertBatch(log, reviews[..n], now, ties[..n]).0;
      InOrderPrefix(before, InsertBatch(log, reviews, now, ties).0);
      LatestAfterBatch(log, reviews[..n], now, ties[..n], k);
      LatestAfterOne(before, reviews[n], now, ties[n], k);
    }
  }

  lemma LatestAfterOne(log: seq<Raw>, r: Incoming, now: int, tie: int, k: Key)
    requires InOrder(InsertOne(log, r, now, tie).0)
    ensures LatestHash(InsertOne(log, r, now, tie).0, k) == if r.key == k then Some(r.hash) else LatestHash(log, k)
  {
    hide InOrder, LatestBefore;
    if InsertOne(log, r, now, tie).0 != log {
      LatestHashSnoc(log, Row(r, now, tie), k);
    }
  }

  /** The newest row of the review is the version `x`. */
  ghost predicate Newest(raws: seq<Raw>, source: string, x: Item) {
    LatestHash(raws, Key(source, x.id)) == Some(x.hash)
  }

  /** Every version that the service still holds and that has a row is the newest row of its review. */
  ghost predicate PresentIsNewest(stored: seq<Item>, raws: seq<Raw>, source: string) {
    forall x | x in stored && HasRow(raws, source, x) :: Newest(raws, source, x)
  }

  /** For a version the service still holds, with a row or in the batch, the batch does not end with another one. */
  ghost predicate Timely(stored: seq<Item>, raws: seq<Raw>, source: string, reviews: seq<Incoming>) {
    forall x | x in stored && (HasRow(raws, source, x) || InBatch(reviews, source, x)) ::
      LastOf(reviews, Key(source, x.id)) in {None, Some(x.hash)}
  }

  /**
   * An insertion keeps every recorded present version the newest row of its review exactly when it is timely,
   * which can be looked up before it: it brings no older version of a review whose present one is recorded.
   */
  lemma InsertKeepsPresentExactly(stored: seq<Item>, raws: seq<Raw>, source: string, reviews: seq<Incoming>, at: int,
                                  ties: seq<int>)
    requires |reviews| == |ties|
    requires InOrder(InsertBatch(raws, reviews, at, ties).0)
    requires PresentIsNewest(stored, raws, source)
    ensures PresentIsNewest(stored, InsertBatch(raws, reviews, at, ties).0, source)
            <==> Timely(stored, raws, source, reviews)
  {
    var after := InsertBatch(raws, reviews, at, ties).0;
    hide InOrder, InsertBatch, LatestHash, LastOf, HasRow, InBatch;
    forall x
      ensures HasRow(after, source, x) <==> HasRow(raws, source, x) || InBatch(reviews, source, x)
      ensures LatestHash(after, Key(source, x.id))
              == if LastOf(reviews, Key(source, x.id)).Some? then LastOf(reviews, Key(source, x.id))
                 else LatestHash(raws, Key(source, x.id))
      ensures InBatch(reviews, source, x) ==> LastOf(reviews, Key(source, x.id)).Some?
    {
      RowsAfterBatch(raws, source, reviews, at, ties, x);
      LatestAfterBatch(raws, reviews, at, ties, Key(source, x.id));
      InBatchHasLast(reviews, source, x);
    }
  }

  lemma {:induction false} InBatchHasLast(reviews: seq<Incoming>, source: string, x: Item)
    ensures InBatch(reviews, source, x) ==> LastOf(reviews, Key(source, x.id)).Some?
  {
    if InBatch(reviews, source, x) && reviews[|reviews| - 1].key != Key(source, x.id) {
      var front := reviews[..|reviews| - 1];
      var i :| 0 <= i < |reviews| && reviews[i].key == Key(source, x.id) && reviews[i].hash == x.hash;
      assert front[i] == reviews[i];
      InBatchHasLast(front, source, x);
    }
  }

  // ---- Over crawl histories ----

  /** Insertions are in lock order and timely; an edit or a new review is a version without a row. */
  ghost predicate InTurn(w: World, e: Event) {
    match e
    case RemoteChange(c) => !HasRow(w.raws, w.source, NewEntry(w.stored, c))
    case OtherInsert(b) =>
      b.Valid() ==>
        && InOrder(InsertBatch(w.raws, b.reviews, b.now, b.ties).0)
        && Timely(w.stored, w.raws, w.source, b.reviews)
    case InsertOk(s, at, ties) =>
      s in w.workers && w.workers[s].Fetched? && |ties| == |w.workers[s].out| ==>
        var batch := ToInsert(w.place, w.workers[s].out);
        && InOrder(InsertBatch(w.raws, batch, at, ties).0)
        && Timely(w.stored, w.raws, w.source, batch)
    case _ => true
  }

  ghost predicate AllInTurn(w: World, trace: seq<Event>)
    decreases |trace|
  {
    trace != [] ==> InTurn(w, trace[0]) && AllInTurn(Next(w, trace[0]), trace[1..])
  }

  ghost predicate PresentInv(w: World) {
    PresentIsNewest(w.stored, w.raws, w.source)
  }

  lemma ChangeKeepsPresent(w: World, c: Change)
    requires PresentInv(w) && !HasRow(w.raws, w.source, NewEntry(w.stored, c))
    ensures PresentInv(Next(w, RemoteChange(c)))
  {
    hide HasRow, Newest;
    forall x | x in Changed(w.stored, c) && x != NewEntry(w.stored, c) ensures x in w.stored {
    }
  }

  lemma PresentStep(w: World, e: Event)
    requires PresentInv(w) && InTurn(w, e)
    ensures PresentInv(Next(w, e))
  {
    hide PresentIsNewest, Timely, InsertBatch, InOrder, HasOpenJob, IsLastSucceeded, HasRow;
    match e
    case RemoteChange(c) => ChangeKeepsPresent(w, c);
    case OtherInsert(b) =>
      if b.Valid() {
        InsertKeepsPresentExactly(w.stored, w.raws, w.source, b.reviews, b.now, b.ties);
      }
    case InsertOk(s, at, ties) =>
      if s in w.workers && w.workers[s].Fetched? && |ties| == |w.workers[s].out| {
        InsertKeepsPresentExactly(w.stored, w.raws, w.source, ToInsert(w.place, w.workers[s].out), at, ties);
      }
    case _ =>
  }

  lemma {:induction false} RunKeepsPresent(w: World, trace: seq<Event>)
    requires PresentInv(w) && AllInTurn(w, trace)
    ensures PresentInv(Exec(w, trace))
    decreases |trace|
  {
    if trace != [] {
      PresentStep(w, trace[0]);
      hide Next, PresentInv, InTurn;
      RunKeepsPresent(Next(w, trace[0]), trace[1..]);
    }
  }

  /**
   * For every crawl history whose insertions are timely: below the cursor of a succeeded job with no cap hit
   * behind it, the newest row of each matching review is the version that the service holds.
   */
  lemma SucceededMeansPresent(w: World, trace: seq<Event>, j: nat, x: Item)
    requires Fresh(w) && PresentInv(w) && AllAllowed(w, trace) && AllInTurn(w, trace)
    requires j < |Exec(w, trace).jobs|
    requires Exec(w, trace).jobs[j].status == Succeeded && Exec(w, trace).jobs[j].clean
    requires x in Exec(w, trace).stored
    requires Wanted(x, ZERO, Exec(w, trace).jobs[j].cursor, Exec(w, trace).maxRating)
    ensures Newest(Exec(w, trace).raws, Exec(w, trace).source, x)
  {
    hide Exec, AllAllowed, AllInTurn, HasRow, Newest;
    SucceededMeansCovered(w, trace, j);
    RunKeepsPresent(w, trace);
  }

  // ---- How long a wrong newest row stays ----

  predicate NotOf(out: seq<Item>, id: string) {
    forall y | y in out :: y.id != id
  }

  /** The service holds `x`, under an id of its own, but the newest row of the review is another version. */
  ghost predicate Hidden(w: World, x: Item, hash: string, j: nat) {
    && x in w.stored && (forall y | y in w.stored && y.id == x.id :: y == x)
    && hash != x.hash && LatestHash(w.raws, Key(w.source, x.id)) == Some(hash)
    && StartsPast(w, x.time, j)
    && (forall s | s in w.workers && w.workers[s].Fetched? :: NotOf(w.workers[s].out, x.id))
  }

  /** The service leaves that review alone, no one else inserts it, and insertions are in lock order. */
  ghost predicate Undisturbed(w: World, e: Event, id: string) {
    match e
    case RemoteChange(c) => NewEntry(w.stored, c).id != id
    case OtherInsert(b) =>
      b.Valid() ==>
        && InOrder(InsertBatch(w.raws, b.reviews, b.now, b.ties).0)
        && LastOf(b.reviews, Key(w.source, id)).None?
    case InsertOk(s, at, ties) =>
      s in w.workers && w.workers[s].Fetched? && |ties| == |w.workers[s].out| ==>
        InOrder(InsertBatch(w.raws, ToInsert(w.place, w.workers[s].out), at, ties).0)
    case _ => true
  }

  ghost predicate AllUndisturbed(w: World, trace: seq<Event>, id: string)
    decreases |trace|
  {
    trace != [] ==> Undisturbed(w, trace[0], id) && AllUndisturbed(Next(w, trace[0]), trace[1..], id)
  }

  lemma {:induction false} NoneLast(p: Place, out: seq<Item>, id: string)
    requires NotOf(out, id)
    ensures LastOf(ToInsert(p, out), Key(p.source, id)).None?
  {
    if out != [] {
      var n := |out| - 1;
      assert out[n] in out;
      assert ToInsert(p, out)[..n] == ToInsert(p, out[..n]);
      NoneLast(p, out[..n], id);
    }
  }

  lemma RowStaysNewest(w: World, e: Event, x: Item, hash: string, j: nat)
    requires Hidden(w, x, hash, j) && Undisturbed(w, e, x.id)
    ensures LatestHash(Next(w, e).raws, Key(w.source, x.id)) == Some(hash)
    ensures Next(w, e).place == w.place
  {
    hide StartsPast, LatestHash, InOrder, LastOf, InsertBatch, HasOpenJob, IsLastSucceeded;
    match e
    case OtherInsert(b) =>
      if b.Valid() {
        LatestAfterBatch(w.raws, b.reviews, b.now, b.ties, Key(w.source, x.id));
      }
    case InsertOk(s, at, ties) =>
      if s in w.workers && w.workers[s].Fetched? && |ties| == |w.workers[s].out| {
        NoneLast(w.place, w.workers[s].out, x.id);
        LatestAfterBatch(w.raws, ToInsert(w.place, w.workers[s].out), at, ties, Key(w.source, x.id));
      }
    case _ =>
  }

  lemma EntryStays(w: World, e: Event, x: Item)
    requires x in w.stored && (forall y | y in w.stored && y.id == x.id :: y == x)
    requires e.RemoteChange? ==> NewEntry(w.stored, e.change).id != x.id
    ensures x in Next(w, e).stored && (forall y | y in Next(w, e).stored && y.id == x.id :: y == x)
  {
    hide InsertBatch, HasOpenJob, IsLastSucceeded;
    if e.RemoteChange? {
      var i :| 0 <= i < |w.stored| && w.stored[i] == x;
      assert Next(w, e).stored[i] == x;
      forall y | y in Next(w, e).stored && y.id == x.id ensures y in w.stored {
      }
    }
  }

  /** A fetch that starts at or after the version does not return the review: it returns nothing that is not newer. */
  lemma FetchedStayOff(w: World, e: Event, x: Item, hash: string, j: nat)
    requires Hidden(w, x, hash, j) && Allowed(w, e)
    ensures forall s | s in Next(w, e).workers && Next(w, e).workers[s].Fetched? :: NotOf(Next(w, e).workers[s].out, x.id)
  {
    hide InsertBatch, HasOpenJob, IsLastSucceeded, SeenUpTo, GoogleAdapter.Complete, Behind, LatestHash;
    if e.FetchOk? && e.worker in w.workers && w.workers[e.worker].Owning? {
      assert WorkerStartsPast(w.jobs, w.workers[e.worker], x.time, j);
      forall y | y in e.out ensures y.id != x.id {
        assert Wanted(y, w.workers[e.worker].since, e.cursor, w.maxRating);
        assert HasReview(w.stored, y.id, y.time);
      }
    }
  }

  /**
   * While every job and worker that is not over starts at or after the version that the service holds, a wrong
   * newest row stays: no later fetch brings the review, until the service changes it or another insertion does.
   */
  lemma {:induction false} HiddenStaysHidden(w: World, trace: seq<Event>, x: Item, hash: string, j: nat)
    requires Hidden(w, x, hash, j) && AllAllowed(w, trace) && AllUndisturbed(w, trace, x.id)
    ensures Hidden(Exec(w, trace), x, hash, j) && Exec(w, trace).place == w.place
    decreases |trace|
  {
    if trace != [] {
      StartsStayPast(w, trace[0], x.time, j);
      RowStaysNewest(w, trace[0], x, hash, j);
      EntryStays(w, trace[0], x);
      FetchedStayOff(w, trace[0], x, hash, j);
      hide Next, StartsPast, Allowed, LatestHash;
      assert Hidden(Next(w, trace[0]), x, hash, j);
      hide Hidden, Undisturbed;
      HiddenStaysHidden(Next(w, trace[0]), trace[1..], x, hash, j);
    }
  }

  // ---- A late insertion of an older fetch ----

  const OLD := Item("r", 1, Some(1), true, "old", "", "", None)
  const EDITED := Item("r", 2, Some(1), true, "edited", "", "", None)
  const PLACE := Place("google", "", "")
  const BEFORE := World(PLACE, 3, [OLD], 1, [], [], map[])

  /**
   * Worker 0 fetches the old text and is reaped; the review is edited; worker 1 fetches and stores the edit and
   * succeeds; then worker 0, still alive, stores what it fetched, fails to publish, and gives up for good.
   */
  const LATE: seq<Event> :=
    [Schedule(0, None), Load(0, 0), ClaimJob(0, 0), FetchOk(0, 1, false, [OLD]), Reap(0, 1), RemoteChange(Edit(0, EDITED)),
     Schedule(2, None), Load(1, 1), ClaimJob(1, 2), FetchOk(1, 2, false, [EDITED]), InsertOk(1, 5, [0]), Succeed(1, 6),
     InsertOk(0, 7, [1]), Fail(0, true, 8)]

  function StoredRow(x: Item, at: int, tie: int): Raw {
    Row(ToRaw(PLACE, x), at, tie)
  }

  function LateWorld(n: nat): World {
    var first := Job(Pending, ZERO, 0, None, None, true);
    var job0 := if n < 3 then first
                else if n < 5 then first.(status := Running, startedAt := Some(0))
                else if n < 14 then first.(status := JobStatus.Failed, startedAt := Some(0), finishedAt := Some(1))
                else first.(status := DeadLetter, startedAt := Some(0), finishedAt := Some(8));
    var second := Job(Pending, ZERO, 2, None, None, true);
    var job1 := if n < 9 then second
                else if n < 12 then second.(status := Running, startedAt := Some(2))
                else FinishedJob(second.(status := Running, startedAt := Some(2)), Succeeded, 2, 6, true);
    var (row0, row1) := (StoredRow(EDITED, 5, 0), StoredRow(OLD, 7, 1));
    World(PLACE, 3, if n < 6 then [OLD] else [EDITED], if n < 6 then 1 else 2,
          if n < 11 then [] else if n < 13 then [row0] else [row0, row1],
          if n == 0 then [] else if n < 7 then [job0] else [job0, job1],
          LateWorkers(n))
  }

  function LateWorkers(n: nat): map<nat, Worker> {
    var held := Worker.Fetched(0, ZERO, true, 1, false, [OLD]);
    match n
    case 0 => map[]
    case 1 => map[]
    case 2 => map[0 := Loaded(0, ZERO, true)]
    case 3 => map[0 := Owning(0, ZERO, true)]
    case 8 => map[0 := held, 1 := Loaded(1, ZERO, true)]
    case 9 => map[0 := held, 1 := Owning(1, ZERO, true)]
    case 10 => map[0 := held, 1 := Worker.Fetched(1, ZERO, true, 2, false, [EDITED])]
    case 11 => map[0 := held, 1 := Stored(1, ZERO, true, 2, false)]
    case 13 => map[0 := Stored(0, ZERO, true, 1, false)]
    case 14 => map[]
    case _ => map[0 := held]
  }

  lemma LateJobStep(n: nat)
    requires n in {0, 1, 2, 4, 6, 7, 8}
    ensures Next(LateWorld(n), LATE[n]) == LateWorld(n + 1)
  {
    hide InsertBatch, ToInsert;
  }

  lemma LateServiceStep(n: nat)
    requires n in {3, 5, 9, 11, 13}
    ensures Next(LateWorld(n), LATE[n]) == LateWorld(n + 1)
  {
    hide InsertBatch, ToInsert, LastSucceeded, HasOpenJob;
    if n == 11 {
      assert LateWorkers(11) - {1} == LateWorkers(12);
    } else if n == 13 {
      assert LateWorkers(13) - {0} == map[];
    }
  }

  lemma LateInsertStep(n: nat)
    requires n in {10, 12}
    ensures Next(LateWorld(n), LATE[n]) == LateWorld(n + 1)
  {
    hide LastSucceeded, HasOpenJob;
    var log := LateWorld(n).raws;
    var out := if n == 10 then [EDITED] else [OLD];
    var ties := LATE[n].ties;
    var batch := ToInsert(PLACE, out);
    assert batch == [ToRaw(PLACE, out[0])];
    assert InsertBatch(log, batch[..0], LATE[n].at, ties[..0]) == (log, []);
    if n == 12 {
      LatestIsNewest(log, Key("google", "r"), None, 0);
      assert Latest(log, Key("google", "r")) == Some(0);
    }
    assert InsertBatch(log, batch, LATE[n].at, ties).0 == LateWorld(n + 1).raws;
  }

  lemma LateAllowed(n: nat)
    requires n < 14
    ensures Allowed(LateWorld(n), LATE[n])
  {
    hide InsertBatch, LastSucceeded, HasOpenJob;
  }

  lemma {:induction false} LateRun(n: nat)
    requires n <= 14
    ensures Exec(BEFORE, LATE[..n]) == LateWorld(n) && AllAllowed(BEFORE, LATE[..n])
  {
    hide Next, Allowed;
    if n == 0 {
      assert LateWorld(0) == BEFORE;
    } else {
      hide LateWorld;
      LateRun(n - 1);
      LateAllowed(n - 1);
      if n - 1 in {0, 1, 2, 4, 6, 7, 8} {
        LateJobStep(n - 1);
      } else if n - 1 in {3, 5, 9, 11, 13} {
        LateServiceStep(n - 1);
      } else {
        LateInsertStep(n - 1);
      }
      ExecSnoc(BEFORE, LATE[..n - 1], LATE[n - 1]);
      assert LATE[..n] == LATE[..n - 1] + [LATE[n - 1]];
    }
  }

  lemma LateEnd()
    ensures var raws := LateWorld(13).raws;
            HasRow(raws, "google", EDITED) && InOrder(raws) && LatestHash(raws, Key("google", "r")) == Some("old")
    ensures LateWorld(13).raws == [StoredRow(EDITED, 5, 0), StoredRow(OLD, 7, 1)]
  {
    var raws := LateWorld(13).raws;
    assert raws[0].key == Key("google", "r") && raws[0].hash == "edited";
    LatestIsNewest(raws, Key("google", "r"), None, 1);
    LatestIsNewest(raws, Key("google", "r"), None, 0);
    hide LatestBefore;
  }

  lemma LateIsNotTimely()
    ensures !InTurn(LateWorld(12), LATE[12])
  {
    hide InsertBatch, InOrder;
    var w := LateWorld(12);
    var batch := ToInsert(PLACE, [OLD]);
    assert batch == [ToRaw(PLACE, OLD)];
    assert HasRow(w.raws, "google", EDITED) by {
      assert w.raws[0].key == Key("google", "r") && w.raws[0].hash == "edited";
    }
    assert EDITED in w.stored && "old" != "edited";
    assert LastOf(batch, Key("google", "r")) == Some("old");
  }

  /**
   * An allowed history, in lock order, with a clean succeeded job past the edit, whose row is in the log; but the
   * newest row is the old text, which is what reviews will show. The last insertion is the one that is not timely.
   */
  lemma LateInsertHidesAnEdit()
    ensures var end := Exec(BEFORE, LATE[..13]);
            && Fresh(BEFORE) && PresentInv(BEFORE) && AllAllowed(BEFORE, LATE[..13])
            && |end.jobs| == 2 && end.jobs[1].status == Succeeded && end.jobs[1].clean
            && EDITED in end.stored && Wanted(EDITED, ZERO, end.jobs[1].cursor, end.maxRating)
            && HasRow(end.raws, "google", EDITED) && InOrder(end.raws)
            && LatestHash(end.raws, Key("google", "r")) == Some("old") && !Newest(end.raws, "google", EDITED)
    ensures !InTurn(Exec(BEFORE, LATE[..12]), LATE[12])
  {
    LateRun(12);
    LateRun(13);
    LateEnd();
    LateIsNotTimely();
    assert "old" != "edited";
    hide Exec, AllAllowed, HasRow, InOrder, LatestHash, InTurn;
  }

  lemma LateHides()
    ensures Hidden(LateWorld(14), EDITED, "old", 1)
  {
    LateEnd();
    assert LateWorld(14).raws == LateWorld(13).raws;
    assert "old" != "edited";
    hide LatestHash, HasRow, InOrder;
  }

  /** And it lasts: whatever jobs follow, the old text stays the newest row until the review is touched again. */
  lemma LateHarmLasts(later: seq<Event>)
    requires AllAllowed(Exec(BEFORE, LATE), later) && AllUndisturbed(Exec(BEFORE, LATE), later, "r")
    ensures AllAllowed(BEFORE, LATE + later)
    ensures EDITED in Exec(BEFORE, LATE + later).stored
    ensures LatestHash(Exec(BEFORE, LATE + later).raws, Key("google", "r")) == Some("old")
  {
    LateRun(14);
    assert LATE[..14] == LATE;
    LateHides();
    hide LateWorld, Exec, AllAllowed, AllUndisturbed, LatestHash, StartsPast;
    ExecAppend(BEFORE, LATE, later);
    HiddenStaysHidden(LateWorld(14), later, EDITED, "old", 1);
    PlaceOfLate();
  }

  lemma PlaceOfLate()
    ensures LateWorld(14).place == PLACE
  {
  }
}
