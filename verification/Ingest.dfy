/**
 * review.raw -> reviews: the upsert with its five outcomes and its failure, the two reconciliation scans, and
 * what they repair.
 */
module Ingest {
  import opened Base
  import opened RawLog
  import opened Tables

  /** The five outcomes of the upsert, and the failure of its write. */
  datatype Outcome = Applied | PointerOnly | Replay | Stale | Deleted | Rejected

  datatype UpsertParams = UpsertParams(raw: nat, key: Key, author: string, rating: Option<real>, content: string,
                                       postedAt: Option<int>, url: string, mappedStore: Option<int>)

  /** numeric(3,1): a number is rounded to tenths, half away from zero. */
  function Tenths(r: real): int {
    if r >= 0.0 then (10.0 * r + 0.5).Floor else -(0.5 - 10.0 * r).Floor
  }

  function Rounded(rating: Option<real>): Option<int> {
    match rating
    case None => None
    case Some(r) => Some(Tenths(r))
  }

  /** CHECK (rating IS NULL OR (rating >= 0 AND rating <= 10)), on the rounded value. */
  predicate Fits(rating: Option<real>) {
    rating.Some? ==> 0 <= Tenths(rating.value) <= 100
  }

  /** The comparison of the stored rating with the one just read, without rounding the latter. */
  predicate SameRating(stored: Option<int>, read: Option<real>) {
    match (stored, read)
    case (None, None) => true
    case (Some(t), Some(r)) => t as real == 10.0 * r
    case _ => false
  }

  /** created_at of a version; the foreign key of reviews makes the version exist. */
  function VersionTime(raws: seq<Raw>, i: nat): int {
    if i < |raws| then raws[i].createdAt else 0
  }

  /**
   * What the transaction leaves in the row it locked, or would insert if there was none. A rating outside the
   * column's range makes the write fail.
   */
  function UpsertRow(raws: seq<Raw>, locked: Option<Review>, p: UpsertParams, now: int): (Review, Outcome)
  {
    match locked
    case None =>
      (Review(p.raw, p.author, Rounded(p.rating), p.content, p.postedAt, p.url, p.mappedStore,
              New, false, 1, now), if Fits(p.rating) then Applied else Rejected)
    case Some(cur) =>
      if cur.deleted then (cur, Deleted)
      else if cur.raw == p.raw then (cur, Replay)
      else if VersionTime(raws, p.raw) < VersionTime(raws, cur.raw) then (cur, Stale)
      else if !Fits(p.rating) then (cur, Rejected)
      else
        var changed := cur.content != p.content || !SameRating(cur.rating, p.rating);
        (Review(p.raw, p.author, Rounded(p.rating), p.content, p.postedAt, p.url,
                if p.mappedStore.Some? then p.mappedStore else cur.store,
                if changed then New else cur.status, false, cur.version + 1, now),
         if changed then Applied else PointerOnly)
  }

  function ReviewAt(db: Db, k: Key): Option<Review> {
    if k in db.reviews then Some(db.reviews[k]) else None
  }

  function Upsert(db: Db, p: UpsertParams, now: int): (Db, Outcome)
  {
    var (row, outcome) := UpsertRow(db.raws, ReviewAt(db, p.key), p, now);
    (if outcome in {Applied, PointerOnly} then db.(reviews := db.reviews[p.key := row]) else db, outcome)
  }

  /** One delivery of review.raw, or one pick of the reconciler; `store` is the store its location maps to. */
  datatype Visit = Visit(raw: nat, store: Option<int>, now: int)

  datatype IngestResult = NotFound | Quarantined | Upserted(outcome: Outcome)

  function ParamsOf(raw: Raw, v: Visit): UpsertParams
    requires raw.norm.Some?
  {
    var n := raw.norm.value;
    UpsertParams(v.raw, raw.key, n.author, n.rating, n.content, n.postedAt, raw.url, v.store)
  }

  function IngestOne(db: Db, v: Visit): (Db, IngestResult)
  {
    if v.raw >= |db.raws| then (db, NotFound)
    else if db.raws[v.raw].norm.None? then (db.(quarantine := db.quarantine + {v.raw}), Quarantined)
    else
      var (after, outcome) := Upsert(db, ParamsOf(db.raws[v.raw], v), v.now);
      (after, Upserted(outcome))
  }

  /** review.created is published for what is new downstream, and again for a replay. */
  predicate Publishes(r: IngestResult) {
    r == Upserted(Applied) || r == Upserted(Replay)
  }

  /** The handler returns an error: the version is not visible, or the row cannot be written. */
  predicate Fails(r: IngestResult) {
    r == NotFound || r == Upserted(Rejected)
  }

  /** The delivery is acknowledged: nothing failed, and what had to be published was. */
  predicate Acknowledges(r: IngestResult, queueUp: bool) {
    !Fails(r) && (Publishes(r) ==> queueUp)
  }

  // ---- The scans ----

  predicate IsUnreflected(db: Db, i: nat, cutoff: int)
    requires i < |db.raws|
  {
    var k := db.raws[i].key;
    && LatestBefore(db.raws, k, Some(cutoff)) == Some(i)
    && i !in db.quarantine
    && !(k in db.reviews && db.reviews[k].raw == i)
  }

  /** The newest version before `cutoff` of a key, when reviews does not point at it and it is not quarantined. */
  function Unreflected(db: Db, cutoff: int): set<nat> {
    set i | 0 <= i < |db.raws| && IsUnreflected(db, i, cutoff)
  }

  function StaleNew(db: Db, cutoff: int): set<Key> {
    set k | k in db.reviews && !db.reviews[k].deleted && db.reviews[k].status == New && db.reviews[k].updatedAt < cutoff
  }

  /**
   * Leg 1 finds a version exactly if it is the newest of its key among those before the cutoff, is not
   * quarantined, and its review is missing or points elsewhere.
   */
  lemma UnreflectedExactly(db: Db, cutoff: int, i: nat)
    requires forall a, b | 0 <= a < b < |db.raws| :: db.raws[a].tie != db.raws[b].tie
    ensures i in Unreflected(db, cutoff) <==>
              && i < |db.raws| && db.raws[i].createdAt < cutoff && i !in db.quarantine
              && (db.raws[i].key in db.reviews ==> db.reviews[db.raws[i].key].raw != i)
              && forall j | 0 <= j < |db.raws| && db.raws[j].key == db.raws[i].key && db.raws[j].createdAt < cutoff
                            && j != i ::
                   || db.raws[j].createdAt < db.raws[i].createdAt
                   || (db.raws[j].createdAt == db.raws[i].createdAt && db.raws[j].tie < db.raws[i].tie)
  {
    if i < |db.raws| {
      var k := db.raws[i].key;
      forall j: nat | j < |db.raws| && db.raws[j].key == k && db.raws[j].createdAt < cutoff
        ensures var r := LatestBefore(db.raws, k, Some(cutoff));
                && r.Some? && db.raws[j].createdAt <= db.raws[r.value].createdAt
                && (db.raws[j].createdAt == db.raws[r.value].createdAt ==> db.raws[j].tie <= db.raws[r.value].tie)
      {
        LatestIsNewest(db.raws, k, Some(cutoff), j);
      }
      LatestIsVisible(db.raws, k, Some(cutoff));
    }
    hide LatestBefore;
  }

  /** Leg 2 finds a review exactly if it is live, still new and was last written before the cutoff. */
  lemma StaleNewExactly(db: Db, cutoff: int, k: Key)
    ensures k in StaleNew(db, cutoff) <==>
              && k in db.reviews && !db.reviews[k].deleted
              && db.reviews[k].status == New && db.reviews[k].updatedAt < cutoff
  {
  }

  function Ids(visits: seq<Visit>): seq<nat> {
    seq(|visits|, i requires 0 <= i < |visits| => visits[i].raw)
  }

  /** Leg 1 of a reconciliation pass: ingest each picked version in turn. */
  function Leg1(db: Db, visits: seq<Visit>): Db
  {
    if visits == [] then db
    else IngestOne(Leg1(db, visits[..|visits| - 1]), visits[|visits| - 1]).0
  }

  // ---- The invariant: a review shows exactly the version it points at ----

  ghost predicate Shows(r: Review, raw: Raw) {
    && raw.norm.Some? && Fits(raw.norm.value.rating)
    && r.author == raw.norm.value.author
    && r.rating == Rounded(raw.norm.value.rating)
    && r.content == raw.norm.value.content
    && r.postedAt == raw.norm.value.postedAt
    && r.url == raw.url
  }

  /** The row points at a version of its own key and shows it. */
  ghost predicate Reflects(raws: seq<Raw>, k: Key, r: Review) {
    r.raw < |raws| && raws[r.raw].key == k && Shows(r, raws[r.raw])
  }

  ghost predicate AllReflect(raws: seq<Raw>, reviews: map<Key, Review>) {
    forall k | k in reviews :: Reflects(raws, k, reviews[k])
  }

  ghost predicate QuarantineValid(raws: seq<Raw>, quarantine: set<nat>) {
    forall i | i in quarantine :: i < |raws| && raws[i].norm.None?
  }

  ghost predicate IntakeInv(db: Db) {
    InOrder(db.raws) && AllReflect(db.raws, db.reviews) && QuarantineValid(db.raws, db.quarantine)
  }

  /** One row: the upsert leaves a row that shows its version, never an older one, and keeps a deleted row. */
  lemma UpsertRowKeeps(raws: seq<Raw>, locked: Option<Review>, v: Visit)
    requires v.raw < |raws| && raws[v.raw].norm.Some?
    requires locked.Some? ==> Reflects(raws, raws[v.raw].key, locked.value)
    ensures var (row, outcome) := UpsertRow(raws, locked, ParamsOf(raws[v.raw], v), v.now);
            && (outcome in {Applied, PointerOnly} ==> Reflects(raws, raws[v.raw].key, row))
            && (locked.Some? ==>
                  && VersionTime(raws, locked.value.raw) <= VersionTime(raws, row.raw)
                  && row.deleted == locked.value.deleted
                  && (row.deleted ==> row == locked.value))
  {
  }

  /** What one ingestion can change: the quarantine, or the one review of the version's key. */
  lemma IngestShape(db: Db, v: Visit)
    ensures var after := IngestOne(db, v).0;
            || after == db
            || (v.raw < |db.raws| && db.raws[v.raw].norm.None? && after == db.(quarantine := db.quarantine + {v.raw}))
            || (&& v.raw < |db.raws| && db.raws[v.raw].norm.Some?
                && var k := db.raws[v.raw].key;
                && var (row, outcome) := UpsertRow(db.raws, ReviewAt(db, k), ParamsOf(db.raws[v.raw], v), v.now);
                && outcome in {Applied, PointerOnly}
                && after == db.(reviews := db.reviews[k := row]))
  {
    hide UpsertRow;
  }

  /**
   * Ingesting any version, in any order and any number of times: every review still shows the version it
   * points at, that version never gets older, and a soft-deleted review is not touched.
   */
  lemma NoRollback(db: Db, v: Visit)
    requires IntakeInv(db)
    ensures var after := IngestOne(db, v).0;
            && IntakeInv(after)
            && after.raws == db.raws
            && forall k | k in db.reviews :: k in after.reviews && Advances(db.raws, db.reviews[k], after.reviews[k])
  {
    IngestShape(db, v);
    hide IngestOne, InOrder, UpsertRow;
    if v.raw < |db.raws| && db.raws[v.raw].norm.Some? {
      UpsertRowKeeps(db.raws, ReviewAt(db, db.raws[v.raw].key), v);
    }
  }

  ghost predicate Advances(raws: seq<Raw>, before: Review, after: Review) {
    && VersionTime(raws, before.raw) <= VersionTime(raws, after.raw)
    && after.deleted == before.deleted
    && (before.deleted ==> after == before)
  }

  /**
   * When each outcome occurs, and what it leaves: an existing row stays as it is exactly in the outcomes that
   * refuse the version; otherwise it moves to it, and its status goes back to New unless text and rating are
   * what the row already shows.
   */
  lemma OutcomeMeansChange(raws: seq<Raw>, locked: Option<Review>, v: Visit)
    requires v.raw < |raws| && raws[v.raw].norm.Some?
    requires locked.Some? ==> Reflects(raws, raws[v.raw].key, locked.value)
    ensures var (row, outcome) := UpsertRow(raws, locked, ParamsOf(raws[v.raw], v), v.now);
            var live := locked.Some? && !locked.value.deleted;
            var older := live && raws[v.raw].createdAt < raws[locked.value.raw].createdAt;
            && (outcome == Deleted <==> locked.Some? && locked.value.deleted)
            && (outcome == Replay <==> live && locked.value.raw == v.raw)
            && (outcome == Stale <==> older && locked.value.raw != v.raw)
            && (outcome == Rejected <==>
                  && (locked.None? || (live && locked.value.raw != v.raw && !older))
                  && !Fits(raws[v.raw].norm.value.rating))
            && (locked.Some? ==> (locked == Some(row) <==> outcome in {Replay, Stale, Deleted, Rejected}))
            && (locked.Some? && row != locked.value ==> row.raw == v.raw && row.version == locked.value.version + 1)
            && (outcome == PointerOnly <==>
                  && locked.Some? && row != locked.value && row.content == locked.value.content
                  && SameRating(locked.value.rating, raws[v.raw].norm.value.rating))
            && (outcome == PointerOnly ==> row.status == locked.value.status && row.rating == locked.value.rating)
            && (outcome == Applied ==> row.raw == v.raw && row.status == New)
  {
    SameRatingIsSame(locked, raws[v.raw].norm.value.rating);
    hide Fits, Shows, SameRating, Tenths;
  }

  lemma SameRatingIsSame(locked: Option<Review>, read: Option<real>)
    ensures locked.Some? && SameRating(locked.value.rating, read) ==> Rounded(read) == locked.value.rating
  {
    if locked.Some? && locked.value.rating.Some? && read.Some? {
      WholeTenths(locked.value.rating.value, read.value);
    }
  }

  /** Rounding keeps exactly the whole tenths. */
  lemma WholeTenths(t: int, r: real)
    ensures t as real == 10.0 * r ==> Tenths(r) == t
  {
    if t as real == 10.0 * r {
      if r >= 0.0 {
        assert (t as real + 0.5).Floor == t;
      } else {
        assert (0.5 + (-t) as real).Floor == -t;
      }
    }
  }

  /** The column holds the nearest tenth, and of two nearest ones the one further from zero. */
  lemma TenthsAreNearest(r: real, t: int)
    ensures Tenths(r) == t <==> if r >= 0.0 then 2.0 * t as real - 1.0 <= 20.0 * r < 2.0 * t as real + 1.0
                                else 2.0 * t as real - 1.0 < 20.0 * r <= 2.0 * t as real + 1.0
  {
    var x := if r >= 0.0 then 10.0 * r + 0.5 else 0.5 - 10.0 * r;
    assert x.Floor as real <= x < x.Floor as real + 1.0;
  }

  /** The ratings that can be stored. */
  lemma FitsExactly(rating: Option<real>)
    ensures Fits(rating) <==> rating.None? || -0.05 < rating.value < 10.05
  {
    if rating.Some? {
      TenthsAreNearest(rating.value, Tenths(rating.value));
    }
  }

  /**
   * One ingestion of a readable version, column by column. The row is written exactly when there is none or a
   * live one of another, not younger version, and the rating can be stored; its status goes back to New exactly
   * when the text differs or the stored tenths are not the number read; its store is only replaced by another.
   */
  lemma IngestExactly(db: Db, v: Visit)
    requires v.raw < |db.raws| && db.raws[v.raw].norm.Some?
    requires forall k | k in db.reviews :: db.reviews[k].raw < |db.raws|
    ensures var (after, raw) := (IngestOne(db, v).0, db.raws[v.raw]);
            var (k, n) := (raw.key, raw.norm.value);
            var fits := n.rating.None? || -0.05 < n.rating.value < 10.05;
            var movable := k in db.reviews ==>
                  !db.reviews[k].deleted && db.reviews[k].raw != v.raw
                  && db.raws[db.reviews[k].raw].createdAt <= raw.createdAt;
            if !movable || !fits then after == db
            else
              && k in after.reviews && after == db.(reviews := db.reviews[k := after.reviews[k]])
              && var r := after.reviews[k];
                 && r.raw == v.raw && r.author == n.author && r.content == n.content && r.postedAt == n.postedAt
                 && r.url == raw.url && !r.deleted && r.updatedAt == v.now
                 && (r.rating.Some? <==> n.rating.Some?)
                 && (r.rating.Some? ==> Tenths(n.rating.value) == r.rating.value)
                 && if k !in db.reviews then r.version == 1 && r.status == New && r.store == v.store
                    else
                      var cur := db.reviews[k];
                      var same := cur.content == n.content && cur.rating.Some? == n.rating.Some?
                                  && (n.rating.Some? ==> cur.rating.value as real == 10.0 * n.rating.value);
                      && r.version == cur.version + 1 && r.status == (if same then cur.status else New)
                      && r.store == (if v.store == None then cur.store else v.store)
  {
    FitsExactly(db.raws[v.raw].norm.value.rating);
    hide Tenths, Fits;
  }

  /**
   * When a delivery is acknowledged: the version is visible and either cannot be normalised, or its review is deleted
   * or younger, or nothing has to be announced because text and rating stay, or the announcement was taken. A
   * version that would have to be written with a rating out of range is never acknowledged.
   */
  lemma AcknowledgedExactly(db: Db, v: Visit, queueUp: bool)
    requires forall k | k in db.reviews :: db.reviews[k].raw < |db.raws|
    ensures Acknowledges(IngestOne(db, v).1, queueUp) <==>
              && v.raw < |db.raws|
              && (db.raws[v.raw].norm.Some? ==>
                    var (k, n) := (db.raws[v.raw].key, db.raws[v.raw].norm.value);
                    var fits := n.rating.None? || -0.05 < n.rating.value < 10.05;
                    if k !in db.reviews then fits && queueUp
                    else
                      var cur := db.reviews[k];
                      var same := cur.content == n.content && cur.rating.Some? == n.rating.Some?
                                  && (n.rating.Some? ==> cur.rating.value as real == 10.0 * n.rating.value);
                      || cur.deleted
                      || (cur.raw == v.raw && queueUp)
                      || (cur.raw != v.raw && db.raws[v.raw].createdAt < db.raws[cur.raw].createdAt)
                      || (cur.raw != v.raw && db.raws[v.raw].createdAt >= db.raws[cur.raw].createdAt
                          && fits && (same || queueUp)))
  {
    if v.raw < |db.raws| && db.raws[v.raw].norm.Some? {
      FitsExactly(db.raws[v.raw].norm.value.rating);
    }
    hide Tenths, Fits, Rounded;
  }

  /**
   * A newer version with the same text and rating is analysed again exactly when its rating is not a whole
   * number of tenths: the stored rating was rounded, the one it is compared with was not.
   */
  lemma SameTextReanalysedExactly(raws: seq<Raw>, cur: Review, v: Visit)
    requires v.raw < |raws| && raws[v.raw].norm.Some?
    requires Reflects(raws, raws[v.raw].key, cur) && !cur.deleted && cur.raw != v.raw
    requires raws[cur.raw].createdAt <= raws[v.raw].createdAt
    requires raws[v.raw].norm.value.content == raws[cur.raw].norm.value.content
    requires raws[v.raw].norm.value.rating == raws[cur.raw].norm.value.rating
    ensures UpsertRow(raws, Some(cur), ParamsOf(raws[v.raw], v), v.now).1 == Applied
            <==> var rating := raws[v.raw].norm.value.rating;
                 rating.Some? && !IsWholeTenth(rating.value)
  {
    var rating := raws[v.raw].norm.value.rating;
    if rating.Some? && IsWholeTenth(rating.value) {
      WholeTenths((10.0 * rating.value).Floor, rating.value);
    }
  }

  predicate IsWholeTenth(r: real) {
    (10.0 * r).Floor as real == 10.0 * r
  }

  // ---- Convergence of leg 1 ----

  /** Every row is older than the cutoff: the scan with age limit zero. */
  ghost predicate Settled(raws: seq<Raw>, cutoff: int) {
    forall i | 0 <= i < |raws| :: raws[i].createdAt < cutoff
  }

  /** A version that no ingestion can settle: its review is soft-deleted, or its rating does not fit the column. */
  predicate Dead(db: Db, i: nat) {
    && i < |db.raws| && db.raws[i].norm.Some?
    && (!Fits(db.raws[i].norm.value.rating)
        || (db.raws[i].key in db.reviews && db.reviews[db.raws[i].key].deleted))
  }

  function Stuck(db: Db, cutoff: int): set<nat> {
    set i | i in Unreflected(db, cutoff) && Dead(db, i)
  }

  function Live(db: Db, cutoff: int): set<nat> {
    set i | i in Unreflected(db, cutoff) && !Dead(db, i)
  }

  lemma LiveAndStuck(db: Db, cutoff: int)
    ensures Live(db, cutoff) + Stuck(db, cutoff) == Unreflected(db, cutoff)
    ensures Live(db, cutoff) !! Stuck(db, cutoff)
  {
    hide Unreflected, Dead;
  }

  /** A flagged version is at least as new as the one its review points at. */
  lemma FlaggedIsNotStale(db: Db, cutoff: int, i: nat)
    requires AllReflect(db.raws, db.reviews) && Settled(db.raws, cutoff)
    requires i in Unreflected(db, cutoff)
    ensures var k := db.raws[i].key;
            k in db.reviews ==>
              VersionTime(db.raws, db.reviews[k].raw) <= db.raws[i].createdAt && db.reviews[k].raw != i
  {
    var k := db.raws[i].key;
    if k in db.reviews {
      LatestIsNewest(db.raws, k, Some(cutoff), db.reviews[k].raw);
    }
  }

  /** Ingesting a flagged version points its review at it, or quarantines it. */
  lemma FlaggedIsSettled(db: Db, cutoff: int, v: Visit)
    requires AllReflect(db.raws, db.reviews) && Settled(db.raws, cutoff)
    requires v.raw in Unreflected(db, cutoff)
    ensures var after := IngestOne(db, v).0;
            var k := db.raws[v.raw].key;
            if Dead(db, v.raw) then after == db
            else if db.raws[v.raw].norm.None? then after == db.(quarantine := db.quarantine + {v.raw})
            else && after == db.(reviews := after.reviews)
                 && k in after.reviews && after.reviews == db.reviews[k := after.reviews[k]]
                 && after.reviews[k].raw == v.raw && !after.reviews[k].deleted
  {
    FlaggedIsNotStale(db, cutoff, v.raw);
    hide Settled, AllReflect, Unreflected;
  }

  /** Flags of other keys depend on nothing that changed. */
  lemma FlagsElsewhere(db: Db, after: Db, cutoff: int, i: nat)
    requires after.raws == db.raws && i < |db.raws|
    requires i in after.quarantine <==> i in db.quarantine
    requires ReviewAt(after, db.raws[i].key) == ReviewAt(db, db.raws[i].key)
    ensures IsUnreflected(after, i, cutoff) == IsUnreflected(db, i, cutoff)
    ensures Dead(after, i) == Dead(db, i)
  {
  }

  /** Of the versions of one key only the newest can be flagged, so only the ingested flag goes. */
  lemma FlagsAfter(db: Db, cutoff: int, v: Visit, i: nat)
    requires AllReflect(db.raws, db.reviews) && Settled(db.raws, cutoff)
    requires v.raw in Unreflected(db, cutoff) && !Dead(db, v.raw)
    requires i < |db.raws|
    ensures var after := IngestOne(db, v).0;
            && after.raws == db.raws
            && IsUnreflected(after, i, cutoff) == (IsUnreflected(db, i, cutoff) && i != v.raw)
            && (IsUnreflected(after, i, cutoff) ==> Dead(after, i) == Dead(db, i))
  {
    FlaggedIsSettled(db, cutoff, v);
    hide IngestOne, AllReflect, Settled;
    if i != v.raw && db.raws[i].key != db.raws[v.raw].key {
      FlagsElsewhere(db, IngestOne(db, v).0, cutoff, i);
    }
  }

  lemma IntakeReflects(db: Db)
    requires IntakeInv(db)
    ensures AllReflect(db.raws, db.reviews)
  {
  }

  /** Ingesting a flagged version clears its flag and no other; one that cannot be settled changes nothing. */
  lemma IngestFlagged(db: Db, cutoff: int, v: Visit)
    requires IntakeInv(db) && Settled(db.raws, cutoff)
    requires v.raw in Unreflected(db, cutoff)
    ensures var after := IngestOne(db, v).0;
            && IntakeInv(after) && after.raws == db.raws
            && Stuck(after, cutoff) == Stuck(db, cutoff)
            && Live(after, cutoff) == Live(db, cutoff) - {v.raw}
            && (Dead(db, v.raw) ==> after == db)
  {
    hide IngestOne, IntakeInv, AllReflect, InOrder, QuarantineValid, Settled, Dead, IsUnreflected;
    IntakeReflects(db);
    NoRollback(db, v);
    FlaggedIsSettled(db, cutoff, v);
    var after := IngestOne(db, v).0;
    if !Dead(db, v.raw) {
      forall i: nat | i < |db.raws|
        ensures IsUnreflected(after, i, cutoff) == (IsUnreflected(db, i, cutoff) && i != v.raw)
        ensures IsUnreflected(after, i, cutoff) ==> Dead(after, i) == Dead(db, i)
      {
        FlagsAfter(db, cutoff, v, i);
      }
      assert forall i :: i in Unreflected(after, cutoff) <==> i in Unreflected(db, cutoff) && i != v.raw;
    } else {
      assert v.raw !in Live(db, cutoff);
    }
  }

  /** With an age limit, a flagged version older than the reflected one is stale and changes nothing. */
  lemma OldPickIsHarmless(db: Db, cutoff: int, v: Visit)
    requires AllReflect(db.raws, db.reviews)
    requires v.raw in Unreflected(db, cutoff) && !Dead(db, v.raw) && db.raws[v.raw].norm.Some?
    ensures var k := db.raws[v.raw].key;
            var after := IngestOne(db, v).0;
            if k in db.reviews && VersionTime(db.raws, db.reviews[k].raw) > db.raws[v.raw].createdAt
            then after == db && VersionTime(db.raws, db.reviews[k].raw) >= cutoff
            else k in after.reviews && after.reviews[k].raw == v.raw
  {
    var k := db.raws[v.raw].key;
    if k in db.reviews && db.raws[db.reviews[k].raw].createdAt < cutoff {
      LatestIsNewest(db.raws, k, Some(cutoff), db.reviews[k].raw);
    }
    hide AllReflect, Unreflected;
  }

  lemma {:induction false} Leg1Effect(db: Db, cutoff: int, visits: seq<Visit>)
    requires IntakeInv(db) && Settled(db.raws, cutoff)
    requires Distinct(Ids(visits))
    requires Elements(Ids(visits)) <= Unreflected(db, cutoff)
    ensures var after := Leg1(db, visits);
            && IntakeInv(after) && after.raws == db.raws
            && Stuck(after, cutoff) == Stuck(db, cutoff)
            && Live(after, cutoff) == Live(db, cutoff) - Elements(Ids(visits))
            && (Elements(Ids(visits)) <= Stuck(db, cutoff) ==> after == db)
  {
    hide IngestOne, IntakeInv, Settled, Dead, Unreflected;
    if visits != [] {
      var n := |visits| - 1;
      var ids := Ids(visits);
      assert Ids(visits[..n]) == ids[..n] && ids[n] == visits[n].raw;
      assert Elements(ids) == Elements(ids[..n]) + {visits[n].raw};
      assert visits[n].raw !in Elements(ids[..n]);
      Leg1Effect(db, cutoff, visits[..n]);
      var mid := Leg1(db, visits[..n]);
      assert visits[n].raw in Unreflected(mid, cutoff) by {
        assert visits[n].raw in Stuck(db, cutoff) || visits[n].raw in Live(db, cutoff);
        assert visits[n].raw in Stuck(mid, cutoff) || visits[n].raw in Live(mid, cutoff);
      }
      IngestFlagged(mid, cutoff, visits[n]);
      assert visits[n].raw in Stuck(db, cutoff) ==> Dead(mid, visits[n].raw);
    }
  }

  /** Every pass picks from the scan's answer at that moment. */
  ghost predicate ValidPlan(db: Db, cutoff: int, limit: nat, plan: seq<seq<Visit>>)
    decreases |plan|
  {
    plan != [] ==>
      && Picks(Ids(plan[0]), Unreflected(db, cutoff), limit)
      && ValidPlan(Leg1(db, plan[0]), cutoff, limit, plan[1..])
  }

  function Passes(db: Db, plan: seq<seq<Visit>>): Db
    decreases |plan|
  {
    if plan == [] then db else Passes(Leg1(db, plan[0]), plan[1..])
  }

  /** Counting: what a pick of a set split in two takes from the first part. */
  lemma PickCounts(ids: seq<nat>, live: set<nat>, stuck: set<nat>, limit: nat)
    requires Picks(ids, live + stuck, limit) && live !! stuck
    ensures |live - Elements(ids)| == 0 || |live - Elements(ids)| <= |live| - limit + |stuck|
  {
    var picked := Elements(ids);
    DistinctCard(ids);
    assert picked == (picked * live) + (picked * stuck);
    SubsetCard(picked * stuck, stuck);
    SubsetCard(picked * live, live);
    assert live - picked == live - (picked * live);
    if |live + stuck| <= limit {
      PicksAll(ids, live + stuck, limit);
      assert live - picked == {};
    }
  }

  /** A pass under a limit settles at least `limit` minus the stuck ones, or everything live. */
  lemma PassProgress(db: Db, cutoff: int, limit: nat, visits: seq<Visit>)
    requires IntakeInv(db) && Settled(db.raws, cutoff)
    requires Picks(Ids(visits), Unreflected(db, cutoff), limit)
    ensures var after := Leg1(db, visits);
            && IntakeInv(after) && Settled(after.raws, cutoff)
            && Stuck(after, cutoff) == Stuck(db, cutoff)
            && (|Live(after, cutoff)| == 0 || |Live(after, cutoff)| <= |Live(db, cutoff)| - limit + |Stuck(db, cutoff)|)
  {
    hide IntakeInv, Settled, Leg1, Dead;
    assert Elements(Ids(visits)) <= Unreflected(db, cutoff);
    assert Live(db, cutoff) + Stuck(db, cutoff) == Unreflected(db, cutoff);
    Leg1Effect(db, cutoff, visits);
    PickCounts(Ids(visits), Live(db, cutoff), Stuck(db, cutoff), limit);
  }

  lemma {:induction false} PassesDrain(db: Db, cutoff: int, limit: nat, plan: seq<seq<Visit>>)
    requires IntakeInv(db) && Settled(db.raws, cutoff)
    requires ValidPlan(db, cutoff, limit, plan)
    requires |Stuck(db, cutoff)| <= limit
    ensures var after := Passes(db, plan);
            && IntakeInv(after) && Settled(after.raws, cutoff)
            && Stuck(after, cutoff) == Stuck(db, cutoff)
            && (|Live(after, cutoff)| == 0
                || |Live(after, cutoff)| <= |Live(db, cutoff)| - |plan| * (limit - |Stuck(db, cutoff)|))
    decreases |plan|
  {
    hide IntakeInv, Settled, Leg1, Live, Stuck, Picks;
    if plan != [] {
      PassProgress(db, cutoff, limit, plan[0]);
      var mid := Leg1(db, plan[0]);
      PassesDrain(mid, cutoff, limit, plan[1..]);
      hide Passes, ValidPlan;
      OneMorePass(|plan|, limit - |Stuck(db, cutoff)|, |Live(db, cutoff)|, |Live(mid, cutoff)|,
                  |Live(Passes(mid, plan[1..]), cutoff)|);
    }
  }

  lemma OneMorePass(n: nat, gain: nat, live: nat, mid: nat, end: nat)
    requires n > 0
    requires mid == 0 || mid <= live - gain
    requires end == 0 || end <= mid - (n - 1) * gain
    ensures end == 0 || end <= live - n * gain
  {
    assert n * gain == (n - 1) * gain + gain;
    assert (n - 1) * gain >= 0;
  }

  /** Leg 1 is done with a key: reviews shows its newest version, or that version is quarantined. */
  ghost predicate KeySettled(db: Db, k: Key) {
    var latest := Latest(db.raws, k);
    latest.Some? ==>
      || latest.value in db.quarantine
      || (k in db.reviews && db.reviews[k].raw == latest.value && Reflects(db.raws, k, db.reviews[k]))
  }

  lemma {:induction false} SettledLatest(log: seq<Raw>, k: Key, cutoff: int)
    requires Settled(log, cutoff)
    ensures LatestBefore(log, k, Some(cutoff)) == Latest(log, k)
  {
    if log != [] {
      SettledLatest(log[..|log| - 1], k, cutoff);
    }
  }

  lemma NothingFlagged(db: Db, cutoff: int, k: Key)
    requires IntakeInv(db) && Settled(db.raws, cutoff)
    requires Unreflected(db, cutoff) == {}
    ensures KeySettled(db, k)
  {
    SettledLatest(db.raws, k, cutoff);
    hide InOrder, Settled;
    var latest := Latest(db.raws, k);
    if latest.Some? {
      assert latest.value !in Unreflected(db, cutoff);
    }
  }

  /**
   * With n flagged versions, all of which can be settled, any ceil(n / limit) passes, whatever they
   * pick, leave every key settled and nothing flagged.
   */
  lemma ReconcileConverges(db: Db, cutoff: int, limit: nat, plan: seq<seq<Visit>>)
    requires IntakeInv(db) && Settled(db.raws, cutoff)
    requires ValidPlan(db, cutoff, limit, plan)
    requires Stuck(db, cutoff) == {}
    requires |plan| * limit >= |Unreflected(db, cutoff)|
    ensures Unreflected(Passes(db, plan), cutoff) == {}
    ensures forall k :: KeySettled(Passes(db, plan), k)
  {
    hide IntakeInv, Settled, ValidPlan, Passes, Live, Stuck, Unreflected, KeySettled;
    PassesDrain(db, cutoff, limit, plan);
    var after := Passes(db, plan);
    LiveAndStuck(db, cutoff);
    LiveAndStuck(after, cutoff);
    forall k ensures KeySettled(after, k) {
      NothingFlagged(after, cutoff, k);
    }
  }

  /** Any number of elements of a set, as a list. */
  lemma {:induction false} TakeSome(all: set<nat>, n: nat) returns (out: seq<nat>)
    requires n <= |all|
    ensures Distinct(out) && |out| == n && Elements(out) <= all
  {
    if n == 0 {
      out := [];
    } else {
      var x :| x in all;
      assert |all - {x}| == |all| - 1;
      var rest := TakeSome(all - {x}, n - 1);
      out := [x] + rest;
      forall i, j | 0 <= i < j < |out| ensures out[i] != out[j] {
        assert out[j] in Elements(rest);
      }
    }
  }

  lemma VisitsOf(ids: seq<nat>) returns (visits: seq<Visit>)
    ensures Ids(visits) == ids
  {
    visits := seq(|ids|, i requires 0 <= i < |ids| => Visit(ids[i], None, 0));
    assert |Ids(visits)| == |ids|;
  }

  /** When the stuck versions fill the limit, a pass may pick only them, for ever. */
  lemma PassMayStall(db: Db, cutoff: int, limit: nat) returns (visits: seq<Visit>)
    requires IntakeInv(db) && Settled(db.raws, cutoff)
    requires |Stuck(db, cutoff)| >= limit
    ensures Picks(Ids(visits), Unreflected(db, cutoff), limit)
    ensures Leg1(db, visits) == db
  {
    hide IntakeInv, Settled, Leg1, Dead, Unreflected, Live;
    var stuck := Stuck(db, cutoff);
    assert stuck <= Unreflected(db, cutoff);
    var ids := TakeSome(stuck, limit);
    visits := VisitsOf(ids);
    SubsetCard(stuck, Unreflected(db, cutoff));
    forall x | x in ids ensures x in Unreflected(db, cutoff) {
      assert x in Elements(ids);
    }
    Leg1Effect(db, cutoff, visits);
  }

  /**
   * A flagged version that cannot be settled stays flagged for ever and takes a place under the limit.
   * While live versions are flagged, every possible pass makes progress exactly when the stuck ones do not
   * fill the limit.
   */
  lemma EveryPassHelpsExactly(db: Db, cutoff: int, limit: nat)
    requires IntakeInv(db) && Settled(db.raws, cutoff)
    requires Live(db, cutoff) != {}
    ensures (forall visits | Picks(Ids(visits), Unreflected(db, cutoff), limit) ::
               |Live(Leg1(db, visits), cutoff)| < |Live(db, cutoff)|)
            <==> |Stuck(db, cutoff)| < limit
  {
    hide IntakeInv, Settled, Leg1, Live, Stuck, Picks, Unreflected;
    if |Stuck(db, cutoff)| < limit {
      forall visits | Picks(Ids(visits), Unreflected(db, cutoff), limit)
        ensures |Live(Leg1(db, visits), cutoff)| < |Live(db, cutoff)|
      {
        PassProgress(db, cutoff, limit, visits);
      }
    } else {
      var visits := PassMayStall(db, cutoff, limit);
    }
  }
}
