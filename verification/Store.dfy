/** The tables as fields of one store; every transaction is a method proved against its function on values. */
module Storage {
  import opened Base
  import opened RawLog
  import opened Tables
  import opened Ingest
  import opened Analyze
  import opened Routing
  import Notify

  datatype Message = ReviewCreated(created: Key) | ReviewAnalyzed(analysed: Key) |
    CaseEvent(routed: Key, outcome: RouteOutcome)

  class Store {
    var raws: seq<Raw>
    var quarantine: set<nat>
    var reviews: map<Key, Review>
    var analyses: map<Key, seq<Analysis>>
    var cases: map<Key, Case>
    var assignments: map<Key, seq<string>>
    var notifications: seq<Notification>
    /** What the queue took over; nothing below relies on it being delivered. */
    var published: seq<Message>
    /** The notifications that were handed to the sender, by index. */
    var handed: seq<nat>

    constructor ()
      ensures Value() == EmptyDb && published == [] && handed == []
    {
      raws, quarantine, reviews, analyses := [], {}, map[], map[];
      cases, assignments, notifications, published, handed := map[], map[], [], [], [];
    }

    function Value(): Db
      reads this
    {
      Db(raws, quarantine, reviews, analyses, cases, assignments, notifications)
    }

    // ---- Ingestion ----

    method InsertRawReviews(incoming: seq<Incoming>, now: int, ties: seq<int>) returns (out: seq<InsertResult>)
      requires |ties| == |incoming|
      modifies this`raws
      ensures (raws, out) == InsertBatch(old(raws), incoming, now, ties)
    {
      hide LatestBefore;
      out := [];
      var i := 0;
      while i < |incoming|
        invariant 0 <= i <= |incoming|
        invariant (raws, out) == InsertBatch(old(raws), incoming[..i], now, ties[..i])
      {
        var r := incoming[i];
        assert incoming[..i + 1][..i] == incoming[..i] && ties[..i + 1][..i] == ties[..i];
        var latest := Latest(raws, r.key);
        if latest.Some? && raws[latest.value].hash == r.hash {
          out := out + [InsertResult(latest.value, false)];
        } else {
          out := out + [InsertResult(|raws|, true)];
          raws := raws + [Row(r, now, ties[i])];
        }
        i := i + 1;
      }
      assert incoming[..i] == incoming && ties[..i] == ties;
    }

    method UpsertReview(p: UpsertParams, now: int) returns (outcome: Outcome)
      requires p.raw < |raws|
      modifies this`reviews
      ensures Value() == Upsert(old(Value()), p, now).0
      ensures outcome == Upsert(old(Value()), p, now).1
    {
      if p.key !in reviews {
        if !Fits(p.rating) {
          return Rejected;
        }
        reviews := reviews[p.key := Review(p.raw, p.author, Rounded(p.rating), p.content, p.postedAt, p.url,
                                           p.mappedStore, New, false, 1, now)];
        return Applied;
      }
      var cur := reviews[p.key];
      if cur.deleted {
        return Deleted;
      }
      if cur.raw == p.raw {
        return Replay;
      }
      if VersionTime(raws, p.raw) < VersionTime(raws, cur.raw) {
        return Stale;
      }
      if !Fits(p.rating) {
        return Rejected;
      }
      var changed := cur.content != p.content || !SameRating(cur.rating, p.rating);
      outcome := if changed then Applied else PointerOnly;
      var updated := cur.(raw := p.raw, author := p.author, rating := Rounded(p.rating), content := p.content,
                          postedAt := p.postedAt, url := p.url,
                          store := if p.mappedStore.Some? then p.mappedStore else cur.store,
                          status := if changed then New else cur.status);
      reviews := reviews[p.key := Touched(updated, now)];
    }

    /** One delivery of review.raw: an error makes the queue deliver it again. */
    method HandleRaw(v: Visit, queueUp: bool) returns (ok: bool)
      modifies this`reviews, this`quarantine, this`published
      ensures Value() == IngestOne(old(Value()), v).0
      ensures ok == Acknowledges(IngestOne(old(Value()), v).1, queueUp)
      ensures published == old(published) + CreatedMessage(old(Value()), v, queueUp)
      ensures var readable := v.raw < |raws| && raws[v.raw].norm.Some?;
              var k := if readable then raws[v.raw].key else Key("", "");
              var n := if readable then raws[v.raw].norm.value else Normalized("", None, "", None);
              var known := k in old(reviews);
              var announces := readable && k in reviews && reviews[k].raw == v.raw
                  && (known ==>
                        var cur := old(reviews)[k];
                        && !cur.deleted
                        && (cur.raw == v.raw || cur.content != n.content || cur.rating.Some? != n.rating.Some?
                            || (n.rating.Some? && cur.rating.value as real != 10.0 * n.rating.value)));
              && published == old(published) + (if announces && queueUp then [ReviewCreated(k)] else [])
              && (announces ==> ok == queueUp)
    {
      hide Fits, Tenths, Rounded;
      if v.raw >= |raws| {
        return false;
      }
      var raw := raws[v.raw];
      if raw.norm.None? {
        quarantine := quarantine + {v.raw};
        return true;
      }
      var outcome := UpsertReview(ParamsOf(raw, v), v.now);
      if outcome == Rejected {
        return false;
      }
      if outcome in {Stale, Deleted, PointerOnly} {
        return true;
      }
      if !queueUp {
        return false;
      }
      published := published + [ReviewCreated(raw.key)];
      return true;
    }

    method FindUnreflectedRaws(cutoff: int, limit: nat) returns (out: seq<nat>)
      ensures Picks(out, Unreflected(Value(), cutoff), limit)
    {
      out := [];
      var i := 0;
      var db := Value();
      ghost var answer := Unreflected(db, cutoff);
      FlagsAreIndices(db, cutoff);
      hide IsUnreflected, Unreflected;
      while i < |db.raws| && |out| < limit
        invariant 0 <= i <= |db.raws| && |out| <= limit
        invariant Distinct(out) && forall x | x in out :: x < i
        invariant Elements(out) == set x | x in answer && x < i
      {
        ghost var before := Elements(out);
        if IsUnreflected(db, i, cutoff) {
          assert i in answer;
          assert Elements(out + [i]) == Elements(out) + {i};
          out := out + [i];
        }
        assert Elements(out) == before + (if i in answer then {i} else {});
        i := i + 1;
      }
      assert forall x | x in Elements(out) :: x in answer;
      assert i == |db.raws| ==> Elements(out) == answer;
      PicksWhen(out, answer, limit);
    }

    method FindStaleNewReviews(cutoff: int, limit: nat) returns (out: seq<Key>)
      ensures Picks(out, StaleNew(Value(), cutoff), limit)
    {
      out := PickSome(StaleNew(Value(), cutoff), limit);
    }

    /**
     * One pass of the two legs. `mapped` answers the store lookup of each version, `queueUp` says for which
     * versions and reviews a publish succeeds.
     */
    method ReconcileOnce(rawCutoff: int, newCutoff: int, limit: nat, mapped: map<nat, int>, now: int,
                         rawUp: set<nat>, createdUp: set<Key>)
      returns (reingested: nat, republished: nat, ghost visits: seq<Visit>, ghost stale: seq<Key>)
      modifies this`reviews, this`quarantine, this`published
      ensures Picks(Ids(visits), Unreflected(old(Value()), rawCutoff), limit)
      ensures Value() == Leg1(old(Value()), visits)
      ensures Picks(stale, StaleNew(Value(), newCutoff), limit)
      ensures reingested == Leg1Report(old(Value()), visits, rawUp).0
      ensures republished == |Announced(stale, createdUp)|
      ensures published == old(published) + Leg1Report(old(Value()), visits, rawUp).1 + Announced(stale, createdUp)
    {
      hide IngestOne, Unreflected, StaleNew, Acknowledges, CreatedMessage;
      var rawIds := FindUnreflectedRaws(rawCutoff, limit);
      reingested, republished, visits := 0, 0, [];
      ghost var db := Value();
      var i := 0;
      while i < |rawIds|
        invariant 0 <= i <= |rawIds|
        invariant Ids(visits) == rawIds[..i] && Value() == Leg1(db, visits)
        invariant reingested == Leg1Report(db, visits, rawUp).0
        invariant published == old(published) + Leg1Report(db, visits, rawUp).1
      {
        var id := rawIds[i];
        var v := Visit(id, if id in mapped then Some(mapped[id]) else None, now);
        var ok := HandleRaw(v, id in rawUp);
        assert (visits + [v])[..|visits|] == visits;
        visits := visits + [v];
        if ok {
          reingested := reingested + 1;
        }
        i := i + 1;
      }
      assert rawIds[..i] == rawIds;
      var again := FindStaleNewReviews(newCutoff, limit);
      stale := again;
      republished := Republish(again, createdUp);
    }

    /** Leg 2: asks for the analysis again; a failed publish waits for the next pass. */
    method Republish(stale: seq<Key>, up: set<Key>) returns (republished: nat)
      modifies this`published
      ensures published == old(published) + Announced(stale, up)
      ensures republished == |Announced(stale, up)|
    {
      republished := 0;
      var i := 0;
      while i < |stale|
        invariant 0 <= i <= |stale| && republished == |Announced(stale[..i], up)|
        invariant published == old(published) + Announced(stale[..i], up)
      {
        assert stale[..i + 1][..i] == stale[..i];
        if stale[i] in up {
          published := published + [ReviewCreated(stale[i])];
          republished := republished + 1;
        }
        i := i + 1;
      }
      assert stale[..i] == stale;
    }

    // ---- Analysis ----

    method CommitAnalysis(s: Snapshot, risk: Risk, now: int) returns (res: CommitResult)
      modifies this`reviews, this`analyses
      ensures Value() == Commit(old(Value()), s, risk, now).0
      ensures res == Commit(old(Value()), s, risk, now).1
      ensures res.Committed? ==> AnswerIsLast(analyses, s.review, s.model, s.content, s.rating, risk, now)
    {
      var k := s.review;
      if k !in reviews || reviews[k].deleted {
        return Discarded;
      }
      if reviews[k].version != s.version {
        return Fenced;
      }
      var history := Retired(Value().AnalysesOf(k));
      analyses := analyses[k := history + [Analysis(s.AnalysisInput(), risk, true, now)]];
      if reviews[k].status == New {
        reviews := reviews[k := Touched(reviews[k].(status := Analyzed), now)];
      } else {
        assert reviews == reviews[k := reviews[k]];
      }
      return Committed(|history|);
    }

    /** The commit of what was read from the row: the invariants hold, and a committed answer is of the present row. */
    method CommitHonest(s: Snapshot, risk: Risk, now: int) returns (res: CommitResult)
      requires IntakeInv(Value()) && AnalysisInv(Value()) && Honest(reviews, s)
      modifies this`reviews, this`analyses
      ensures IntakeInv(Value()) && AnalysisInv(Value())
      ensures Value() == Commit(old(Value()), s, risk, now).0
      ensures res == Commit(old(Value()), s, risk, now).1
      ensures res.Committed? ==>
                && s.review in reviews && CoversRow(Value().AnalysesOf(s.review), reviews[s.review])
                && reviews[s.review].status != New
                && AnswerIsLast(analyses, s.review, s.model, reviews[s.review].content, reviews[s.review].rating, risk,
                                now)
    {
      hide IntakeInv, AnalysisInv, Honest, Commit;
      CommitKeeps(Value(), s, risk, now);
      CommitKeepsIntake(Value(), s, risk, now);
      CommitCovers(Value(), s, risk, now);
      res := CommitAnalysis(s, risk, now);
    }

    /**
     * One handling of review.created; `during` is what ingestion does to the tables while the model is being
     * asked. Whatever that is, the invariant holds afterwards, and a committed analysis is of the row's present
     * text and rating.
     */
    method HandleCreated(k: Key, model: string, risk: Risk, during: seq<Visit>, now: int, queueUp: bool)
      returns (ok: bool, committed: bool)
      requires IntakeInv(Value()) && AnalysisInv(Value())
      modifies this`reviews, this`quarantine, this`analyses, this`published
      ensures IntakeInv(Value()) && AnalysisInv(Value())
      ensures committed ==> k in reviews && CoversRow(Value().AnalysesOf(k), reviews[k]) && reviews[k].status != New
      ensures committed ==>
                && k in analyses && analyses[k] != []
                && var a := analyses[k][|analyses[k]| - 1];
                   && a.risk == risk && a.current && a.createdAt == now && a.input.model == model
                   && a.input.content == reviews[k].content && a.input.rating == reviews[k].rating
      ensures Value() == Handled(old(Value()), k, model, risk, during, now).0
      ensures var (acknowledges, commits) := Handled(old(Value()), k, model, risk, during, now).1;
              var announces := commits || IsReplay(old(Value()), k, model);
              && committed == commits && ok == (acknowledges && (announces ==> queueUp))
              && (announces && queueUp ==> published != [] && published[|published| - 1] == ReviewAnalyzed(k))
    {
      hide IntakeInv, AnalysisInv, Honest, Commit, IngestOne, Leg1, FindCurrent, StillCurrent, MarkAnalyzed, RowsAdvance,
           Rounded, Retired, CoversRow;
      committed := false;
      ghost var db := Value();
      var read := ReadReview(Value(), k, model);
      match read {
        case NotYetVisible =>
          return false, false;
        case SkipDeleted =>
          return true, false;
        case Snap(s) =>
          if FindCurrent(Value().AnalysesOf(k), s.AnalysisInput()).Some? {
            ReplayKeeps(db, k, model, now);
            MarkReplay(k, now);
            Announce(k, queueUp);
            return queueUp, false;
          }
          ReadIsHonest(db, k, model);
          ok, committed := AskModel(s, risk, during, now, queueUp);
      }
    }

    /** The slow call, the commit of its answer and the publish. */
    method AskModel(s: Snapshot, risk: Risk, during: seq<Visit>, now: int, queueUp: bool)
      returns (ok: bool, committed: bool)
      requires IntakeInv(Value()) && AnalysisInv(Value()) && Honest(reviews, s)
      modifies this`reviews, this`quarantine, this`analyses, this`published
      ensures IntakeInv(Value()) && AnalysisInv(Value())
      ensures committed ==>
                && s.review in reviews && CoversRow(Value().AnalysesOf(s.review), reviews[s.review])
                && reviews[s.review].status != New
                && AnswerIsLast(analyses, s.review, s.model, reviews[s.review].content, reviews[s.review].rating, risk,
                                now)
      ensures Value() == Commit(Leg1(old(Value()), during), s, risk, now).0
      ensures var res := Commit(Leg1(old(Value()), during), s, risk, now).1;
              committed == res.Committed? && ok == (res.Discarded? || (res.Committed? && queueUp))
      ensures committed && queueUp ==> published != [] && published[|published| - 1] == ReviewAnalyzed(s.review)
    {
      hide IntakeInv, AnalysisInv, Honest, Commit, Leg1, CoversRow;
      Ingesting(during, s);
      var res := CommitHonest(s, risk, now);
      match res {
        case Discarded => return true, false;
        case Fenced => return false, false;
        case Committed(id) =>
          Announce(s.review, queueUp);
          return queueUp, true;
      }
    }

    /** Publishes after the commit; a failure is left to the next delivery and the scans. */
    method Announce(k: Key, queueUp: bool)
      modifies this`published
      ensures published == old(published) + if queueUp then [ReviewAnalyzed(k)] else []
    {
      if queueUp {
        published := published + [ReviewAnalyzed(k)];
      }
    }

    method MarkReplay(k: Key, now: int)
      modifies this`reviews
      ensures Value() == MarkAnalyzed(old(Value()), k, now)
      ensures reviews == if k in old(reviews) && !old(reviews)[k].deleted && old(reviews)[k].status == New then
                           var r := old(reviews)[k];
                           old(reviews)[k := r.(status := Analyzed, version := r.version + 1, updatedAt := now)]
                         else old(reviews)
    {
      if k in reviews && !reviews[k].deleted && reviews[k].status == New {
        reviews := reviews[k := Touched(reviews[k].(status := Analyzed), now)];
      }
    }

    /** The rest of the world during the slow call: any ingestions, in any order. */
    method Ingesting(during: seq<Visit>, ghost s: Snapshot)
      requires IntakeInv(Value()) && AnalysisInv(Value()) && Honest(reviews, s)
      modifies this`reviews, this`quarantine, this`published
      ensures IntakeInv(Value()) && AnalysisInv(Value()) && Honest(reviews, s)
      ensures Value() == Leg1(old(Value()), during)
    {
      hide IntakeInv, AnalysisInv, Honest, IngestOne, RowsAdvance;
      var i := 0;
      while i < |during|
        invariant 0 <= i <= |during| && Value() == Leg1(old(Value()), during[..i])
        invariant IntakeInv(Value()) && AnalysisInv(Value()) && Honest(reviews, s)
      {
        ghost var db := Value();
        assert during[..i + 1][..i] == during[..i];
        NoRollback(db, during[i]);
        IngestKeepsAnalyses(db, during[i]);
        IngestAdvances(db, during[i]);
        var _ := HandleRaw(during[i], true);
        HonestyLasts(db.reviews, reviews, s);
        i := i + 1;
      }
      assert during[..i] == during;
    }

    // ---- Routing ----

    /** Missing assignments are added and every role of the rule is notified. */
    method EnsureAssignmentsAndNotify(k: Key, risk: Risk, rule: Rule)
      modifies this`assignments, this`notifications
      ensures var db := old(Value());
              && assignments == old(assignments)[k := db.RolesOf(k) + Missing(rule.roles, db.RolesOf(k))]
              && notifications == old(notifications) + Notices(k, rule.roles, CaseNotice(risk, rule.slaHours))
    {
      var existing := Value().RolesOf(k);
      var roles := existing;
      var i := 0;
      while i < |rule.roles|
        invariant 0 <= i <= |rule.roles|
        invariant assignments == old(assignments)
        invariant roles == existing + Missing(rule.roles[..i], existing)
        invariant notifications == old(notifications) + Notices(k, rule.roles[..i], CaseNotice(risk, rule.slaHours))
      {
        var role := rule.roles[i];
        assert rule.roles[..i + 1][..i] == rule.roles[..i];
        if role !in existing {
          roles := roles + [role];
        }
        notifications := notifications + [Notification(k, role, CaseNotice(risk, rule.slaHours), Pending, 0)];
        i := i + 1;
      }
      assert rule.roles[..i] == rule.roles;
      assignments := assignments[k := roles];
    }

    method RouteAnalysis(k: Key, id: nat, rule: Rule, now: int) returns (outcome: RouteOutcome)
      requires id < |Value().AnalysesOf(k)|
      modifies this`cases, this`assignments, this`notifications
      ensures Value() == RouteCase(old(Value()), k, id, rule, now).0
      ensures outcome == RouteCase(old(Value()), k, id, rule, now).1
    {
      hide Missing, Notices;
      var risk := Value().AnalysesOf(k)[id].risk;
      var due := now + rule.slaHours * HOUR;
      if k !in cases {
        cases := cases[k := Case(risk, rule, Some(id), Open, due, None, 0, None)];
        EnsureAssignmentsAndNotify(k, risk, rule);
        return Created;
      }
      var cur := cases[k];
      if cur.analysis == Some(id) {
        return Replayed;
      }
      if cur.status == Resolved || cur.status == Closed {
        outcome := Reopened;
      } else if risk.Rank() > cur.risk.Rank() {
        outcome := Escalated;
      } else {
        cases := cases[k := cur.(analysis := Some(id))];
        return Acknowledged;
      }
      RewriteCase(k, id, risk, rule, outcome, due);
      EnsureAssignmentsAndNotify(k, risk, rule);
    }

    method RewriteCase(k: Key, id: nat, risk: Risk, rule: Rule, outcome: RouteOutcome, due: int)
      requires k in cases && outcome in {Reopened, Escalated}
      modifies this`cases
      ensures var c := old(cases)[k];
              cases == old(cases)[k := Case(risk, rule, Some(id), if outcome == Escalated then c.status else Open, due,
                                            None, c.reopened + (if outcome == Reopened then 1 else 0), c.respondedAt)]
    {
      var cur := cases[k];
      var newStatus := Open;
      var reopenInc := 0;
      if outcome == Reopened {
        reopenInc := 1;
      }
      if outcome == Escalated {
        newStatus := cur.status;
      }
      cases := cases[k := cur.(risk := risk, rule := rule, analysis := Some(id), status := newStatus, dueAt := due,
                               remindedAt := None, reopened := cur.reopened + reopenInc)];
    }

    /** One delivery of review.analyzed: the message is a hint, the current analysis is read again. */
    method HandleAnalyzed(k: Key, rules: map<Risk, Rule>, now: int, queueUp: bool) returns (ok: bool)
      modifies this`cases, this`assignments, this`notifications, this`published
      ensures Value() == RouteOne(old(Value()), k, rules, now).0
      ensures var res := RouteOne(old(Value()), k, rules, now).1;
              && ok == (res == NoAnalysis || (res.Routed? && queueUp))
              && published == old(published) + (if res.Routed? && queueUp then [CaseEvent(k, res.outcome)] else [])
    {
      var current := CurrentAnalysis(Value(), k);
      if current.None? {
        return true;
      }
      var risk := Value().AnalysesOf(k)[current.value].risk;
      if risk !in rules {
        return false;
      }
      var outcome := RouteAnalysis(k, current.value, rules[risk], now);
      if !queueUp {
        return false;
      }
      published := published + [CaseEvent(k, outcome)];
      return true;
    }

    method FindUnroutedAnalyses(cutoff: int, limit: nat) returns (out: seq<Key>)
      ensures Picks(out, Unrouted(Value(), cutoff), limit)
    {
      out := PickSome(Unrouted(Value(), cutoff), limit);
    }

    /** A pass over the unrouted analyses; every one of them that has a rule is claimed afterwards. */
    method ReconcileUnrouted(cutoff: int, limit: nat, rules: map<Risk, Rule>, now: int, up: set<Key>)
      returns (done: nat, ghost keys: seq<Key>)
      modifies this`cases, this`assignments, this`notifications, this`published
      ensures Picks(keys, Unrouted(old(Value()), cutoff), limit)
      ensures Value() == RouteAll(old(Value()), keys, rules, now)
      ensures done <= |keys|
      ensures (forall risk: Risk :: risk in rules) && Elements(keys) <= up ==> done == |keys|
    {
      hide RouteCase, Unrouted;
      var ids := FindUnroutedAnalyses(cutoff, limit);
      keys := ids;
      done := 0;
      var i := 0;
      while i < |ids|
        invariant 0 <= i <= |ids| && done <= i
        invariant (forall risk: Risk :: risk in rules) && Elements(ids) <= up ==> done == i
        invariant Value() == RouteAll(old(Value()), ids[..i], rules, now)
      {
        assert ids[..i + 1][..i] == ids[..i];
        assert ids[i] in Elements(ids);
        var ok := HandleAnalyzed(ids[i], rules, now, ids[i] in up);
        if ok {
          done := done + 1;
        }
        i := i + 1;
      }
      assert ids[..i] == ids;
    }

    method UpdateCaseStatus(k: Key, to: CaseStatus, now: int) returns (ok: bool)
      modifies this`cases
      ensures Value() == SetStatus(old(Value()), k, to, now).0
      ensures ok == SetStatus(old(Value()), k, to, now).1
      ensures !ok ==> cases == old(cases)
      ensures ok ==>
                && k in old(cases) && k in cases && cases == old(cases)[k := cases[k]] && cases[k].status == to
                && (old(cases)[k].status, to) in {(Open, InProgress), (Open, Resolved), (InProgress, Resolved),
                                                  (InProgress, Open), (Resolved, Closed), (Resolved, InProgress)}
    {
      if k !in cases || !ValidTransition(cases[k].status, to) {
        return false;
      }
      var c := cases[k].(status := to);
      if to == Resolved && c.respondedAt.None? {
        c := c.(respondedAt := Some(now));
      }
      cases := cases[k := c];
      return true;
    }

    /**
     * Reminds the due cases that are not locked elsewhere, the longest overdue first, up to the limit; each one
     * notifies all its roles and is marked, so that the next pass finds nothing to do.
     */
    method DueSLAReminders(now: int, limit: nat, locked: set<Key>) returns (reminded: nat, ghost picked: seq<Key>)
      modifies this`cases, this`notifications
      ensures Picks(picked, DueCases(old(Value()), now) - locked, limit)
      ensures EarliestFirst(DueTimes(old(cases)), DueCases(old(Value()), now) - locked, picked)
      ensures Value() == RemindAll(old(Value()), picked, now)
      ensures reminded == |picked|
    {
      hide EarliestFirst, RemindOne;
      var dues := PickEarliest(DueTimes(cases), DueCases(Value(), now) - locked, limit);
      picked := dues;
      reminded := 0;
      ghost var db := Value();
      while reminded < |dues|
        invariant 0 <= reminded <= |dues|
        invariant Value() == RemindAll(db, dues[..reminded], now)
        invariant forall k | k in DueCases(db, now) && k !in dues[..reminded] :: k in cases && cases[k] == db.cases[k]
      {
        var k := dues[reminded];
        assert dues[..reminded + 1][..reminded] == dues[..reminded];
        assert k !in dues[..reminded] && k in dues;
        RemindCase(k, now);
        reminded := reminded + 1;
      }
      assert dues[..reminded] == dues;
    }

    method RemindCase(k: Key, now: int)
      requires k in cases && IsDue(cases[k], now)
      modifies this`cases, this`notifications
      ensures Value() == RemindOne(old(Value()), k, now)
      ensures forall k' | k' in old(cases) && k' != k :: k' in cases && cases[k'] == old(cases)[k']
    {
      NotifyRoles(k);
      cases := cases[k := cases[k].(remindedAt := Some(now))];
    }

    method NotifyRoles(k: Key)
      requires k in cases
      modifies this`notifications
      ensures notifications
              == old(notifications) + Notices(k, Value().RolesOf(k), Overdue(cases[k].risk, cases[k].dueAt))
    {
      var roles := Value().RolesOf(k);
      var i := 0;
      while i < |roles|
        invariant 0 <= i <= |roles|
        invariant notifications == old(notifications) + Notices(k, roles[..i], Overdue(cases[k].risk, cases[k].dueAt))
      {
        notifications :=
          notifications + [Notification(k, roles[i], Overdue(cases[k].risk, cases[k].dueAt), Pending, 0)];
        i := i + 1;
      }
      assert roles[..i] == roles;
    }

    // ---- Notifications ----

    method PendingNotifications(limit: nat) returns (out: seq<nat>)
      ensures |out| == Min(limit, Notify.PendingAmong(notifications, |notifications|))
      ensures OldestFirst(notifications, out)
      ensures forall i: nat :: i in out <==> i < |notifications| && Notify.Picked(notifications, i, limit)
    {
      out := [];
      var i := 0;
      while i < |notifications| && |out| < limit
        invariant 0 <= i <= |notifications|
        invariant |out| == Notify.PendingAmong(notifications, i) <= limit
        invariant OldestFirst(notifications, out)
        invariant forall j: nat :: j in out <==> j < i && Notify.Picked(notifications, j, limit)
      {
        if notifications[i].status == Pending {
          out := out + [i];
        }
        i := i + 1;
      }
      if i < |notifications| {
        AllLaterAreBeyond(notifications, i, limit);
      }
    }

    method FinishNotification(i: nat, sendOk: bool)
      requires i < |notifications|
      modifies this`notifications
      ensures notifications == old(notifications)[i := Notify.Tried(old(notifications)[i], sendOk)]
      ensures var n := old(notifications)[i];
              notifications[i] == if sendOk then n.(status := Sent)
                                  else n.(retries := n.retries + 1,
                                          status := if n.retries < 2 then Pending else NotificationStatus.Failed)
    {
      var n := notifications[i];
      if sendOk {
        notifications := notifications[i := n.(status := Sent)];
      } else {
        var status := if n.retries + 1 >= Notify.MAX_TRIES then NotificationStatus.Failed else Pending;
        notifications := notifications[i := n.(retries := n.retries + 1, status := status)];
      }
    }

    /**
     * One notifier pass; the sender accepts exactly the messages in `accepted`. Each message is sent before its
     * result is written; the pass stops when a result cannot be written, which happens after `writes` of them, so
     * one more message than that has been sent.
     */
    method DeliverNotifications(accepted: set<nat>, limit: nat, writes: nat) returns (ok: bool, ghost sent: seq<nat>)
      modifies this`notifications, this`handed
      ensures notifications == Notify.AfterRound(old(notifications), Notify.Round([], accepted, writes), limit)
      ensures handed == old(handed) + sent && OldestFirst(old(notifications), sent)
      ensures forall i: nat :: i in sent <==>
                i < |old(notifications)| && Notify.IsSent(old(notifications), i, limit, writes)
      ensures ok <==> Min(limit, Notify.PendingAmong(old(notifications), |old(notifications)|)) <= writes
    {
      hide Notify.PendingAmong;
      ghost var ns := notifications;
      assert ns + [] == ns;
      var pending := PendingNotifications(limit);
      sent := pending[..Min(|pending|, writes + 1)];
      OldestFirstDistinct(ns, pending);
      var done := SendInTurn(pending, accepted, writes);
      forall j: nat | j < |ns|
        ensures j in pending[..done] <==> Notify.Picked(ns, j, Min(limit, writes))
        ensures j in sent <==> Notify.IsSent(ns, j, limit, writes)
      {
        FrontOfPending(ns, pending, limit, writes, done, j);
        FrontOfPending(ns, pending, limit, writes + 1, |sent|, j);
      }
      return done == |pending|, sent;
    }

    /** Sends and records one message after the other, until a result cannot be written. */
    method SendInTurn(pending: seq<nat>, accepted: set<nat>, writes: nat) returns (done: nat)
      requires Distinct(pending) && forall i | 0 <= i < |pending| :: pending[i] < |notifications|
      modifies this`notifications, this`handed
      ensures done == Min(|pending|, writes)
      ensures handed == old(handed) + pending[..Min(|pending|, writes + 1)]
      ensures |notifications| == |old(notifications)|
      ensures forall j | 0 <= j < |notifications| ::
                notifications[j] == if j in pending[..done] then Notify.Tried(old(notifications)[j], j in accepted)
                                    else old(notifications)[j]
    {
      hide Notify.Tried;
      done := 0;
      while done < |pending|
        invariant done <= |pending| && done <= writes && |notifications| == |old(notifications)|
        invariant handed == old(handed) + pending[..done]
        invariant forall j | 0 <= j < |notifications| ::
                    notifications[j] == if j in pending[..done] then Notify.Tried(old(notifications)[j], j in accepted)
                                        else old(notifications)[j]
      {
        assert pending[done] !in pending[..done];
        assert pending[..done + 1] == pending[..done] + [pending[done]];
        handed := handed + [pending[done]];
        if done == writes {
          return;
        }
        FinishNotification(pending[done], pending[done] in accepted);
        done := done + 1;
      }
    }
  }

  // ---- Helpers ----

  /** The review.created message of one ingestion, if it publishes and the queue takes it. */
  function CreatedMessage(db: Db, v: Visit, queueUp: bool): seq<Message> {
    if Publishes(IngestOne(db, v).1) && queueUp then [ReviewCreated(db.raws[v.raw].key)] else []
  }

  /** How many visits of leg 1 are acknowledged, and the messages they publish. */
  function Leg1Report(db: Db, visits: seq<Visit>, up: set<nat>): (nat, seq<Message>) {
    if visits == [] then (0, [])
    else
      var n := |visits| - 1;
      var v := visits[n];
      var (before, mid) := (Leg1Report(db, visits[..n], up), Leg1(db, visits[..n]));
      (before.0 + (if Acknowledges(IngestOne(mid, v).1, v.raw in up) then 1 else 0),
       before.1 + CreatedMessage(mid, v, v.raw in up))
  }

  /** One visit: a row that is new or has another text or rating is announced if the queue takes messages. */
  lemma VisitAnnounces(db: Db, v: Visit, k: Key)
    ensures var (before, after) := (db.reviews, IngestOne(db, v).0.reviews);
            var sent := CreatedMessage(db, v, true);
            && (k in before ==> k in after)
            && (k in after
                && (k !in before || after[k].content != before[k].content || after[k].rating != before[k].rating)
                ==> sent == [ReviewCreated(k)])
            && (sent != [] ==> v.raw < |db.raws| && sent == [ReviewCreated(db.raws[v.raw].key)]
                               && db.raws[v.raw].key in after && after[db.raws[v.raw].key].raw == v.raw)
            && CreatedMessage(db, v, false) == []
  {
    if v.raw < |db.raws| && db.raws[v.raw].norm.Some? {
      SameRatingIsSame(ReviewAt(db, db.raws[v.raw].key), db.raws[v.raw].norm.value.rating);
    }
    hide SameRating, Rounded, Fits;
  }

  /**
   * Leg 1 of a pass whose publishes succeed: every review that it adds, or whose text or rating it changes, is
   * announced, and only reviews in the table are.
   */
  lemma {:induction false} Leg1Announces(db: Db, visits: seq<Visit>, up: set<nat>, k: Key)
    requires forall v | v in visits :: v.raw in up
    ensures var (before, after) := (db.reviews, Leg1(db, visits).reviews);
            var sent := Leg1Report(db, visits, up).1;
            && (k in before ==> k in after)
            && (k in after
                && (k !in before || after[k].content != before[k].content || after[k].rating != before[k].rating)
                ==> ReviewCreated(k) in sent)
            && (ReviewCreated(k) in sent ==> k in after)
  {
    if visits != [] {
      var n := |visits| - 1;
      assert visits[n] in visits;
      assert forall v | v in visits[..n] :: v in visits;
      Leg1Announces(db, visits[..n], up, k);
      VisitAnnounces(Leg1(db, visits[..n]), visits[n], k);
      hide IngestOne, CreatedMessage;
    }
  }

  /** Leg 2 of a pass: a review is announced exactly if it was picked and its publish succeeds. */
  lemma {:induction false} AnnouncedExactly(keys: seq<Key>, up: set<Key>, k: Key)
    ensures ReviewCreated(k) in Announced(keys, up) <==> k in keys && k in up
    ensures Elements(keys) <= up ==> |Announced(keys, up)| == |keys|
  {
    if keys != [] {
      var n := |keys| - 1;
      assert keys == keys[..n] + [keys[n]];
      AnnouncedExactly(keys[..n], up, k);
      assert Elements(keys) <= up ==> Elements(keys[..n]) <= up && keys[n] in up by {
        if Elements(keys) <= up {
          forall x | x in keys[..n] ensures x in up { assert x in Elements(keys); }
          assert keys[n] in Elements(keys);
        }
      }
    }
  }

  /** One review.created for each key whose publish succeeds. */
  function Announced(keys: seq<Key>, up: set<Key>): seq<Message> {
    if keys == [] then []
    else
      var n := |keys| - 1;
      Announced(keys[..n], up) + if keys[n] in up then [ReviewCreated(keys[n])] else []
  }

  /** The review's present text and rating already have a current analysis by this model. */
  predicate IsReplay(db: Db, k: Key, model: string) {
    var read := ReadReview(db, k, model);
    read.Snap? && FindCurrent(db.AnalysesOf(k), read.snapshot.AnalysisInput()).Some?
  }

  ghost predicate AnswerIsLast(analyses: map<Key, seq<Analysis>>, k: Key, model: string, content: string,
                               rating: Option<int>, risk: Risk, now: int)
  {
    && k in analyses && analyses[k] != []
    && var a := analyses[k][|analyses[k]| - 1];
       && a.risk == risk && a.current && a.createdAt == now
       && a.input.model == model && a.input.content == content && a.input.rating == rating
  }

  /** Read and mark as one step: the replay branch keeps the invariants. */
  lemma ReplayKeeps(db: Db, k: Key, model: string, now: int)
    requires IntakeInv(db) && AnalysisInv(db) && k in db.reviews
    requires FindCurrent(db.AnalysesOf(k), Input(model, db.reviews[k].rating, db.reviews[k].content)).Some?
    ensures IntakeInv(MarkAnalyzed(db, k, now)) && AnalysisInv(MarkAnalyzed(db, k, now))
  {
    hide IntakeInv, AnalysisInv, MarkAnalyzed;
    assert StillCurrent(db, k);
    UnfencedMarkKeepsExactly(db, k, now);
    MarkKeepsIntake(db, k, now);
  }

  lemma ReadIsHonest(db: Db, k: Key, model: string)
    requires ReadReview(db, k, model).Snap?
    ensures Honest(db.reviews, ReadReview(db, k, model).snapshot)
  {
  }

  function DueCases(db: Db, now: int): set<Key> {
    set k | k in db.cases && IsDue(db.cases[k], now)
  }

  function DueTimes(cases: map<Key, Case>): map<Key, int> {
    map k | k in cases :: cases[k].dueAt
  }

  /**
   * A reminder pass picks unlocked cases that are open or in progress, overdue and not reminded, by rising due time,
   * and leaves one of these out only for others that are not due later.
   */
  lemma DuePicksExactly(db: Db, now: int, locked: set<Key>, limit: nat, picked: seq<Key>)
    requires Picks(picked, DueCases(db, now) - locked, limit)
    requires EarliestFirst(DueTimes(db.cases), DueCases(db, now) - locked, picked)
    ensures forall k | k in picked :: k in db.cases && k !in locked
    ensures forall k | k in picked ::
              && db.cases[k].remindedAt == None && db.cases[k].dueAt < now
              && (db.cases[k].status == Open || db.cases[k].status == InProgress)
    ensures forall i, j | 0 <= i < j < |picked| :: db.cases[picked[i]].dueAt <= db.cases[picked[j]].dueAt
    ensures |picked| <= limit
    ensures forall k | k in db.cases && k !in locked && k !in picked && db.cases[k].dueAt < now
                       && db.cases[k].remindedAt == None && db.cases[k].status in {Open, InProgress} ::
              |picked| == limit && forall i | 0 <= i < |picked| :: db.cases[picked[i]].dueAt <= db.cases[k].dueAt
  {
    var due := DueCases(db, now) - locked;
    EarliestFirstExactly(DueTimes(db.cases), due, picked);
    hide EarliestFirst;
    assert forall i | 0 <= i < |picked| :: picked[i] in picked;
    if |due| <= limit {
      PicksAll(picked, due, limit);
    }
    forall k | k in due && k !in picked
      ensures |picked| == limit && forall i | 0 <= i < |picked| :: db.cases[picked[i]].dueAt <= db.cases[k].dueAt
    {
      assert k !in Elements(picked);
    }
  }

  /**
   * A notifier pass picks pending notifications in the order of the table, and leaves a pending one out only when
   * the limit is reached by earlier ones.
   */
  lemma PendingPicksExactly(ns: seq<Notification>, limit: nat, out: seq<nat>)
    requires |out| == Min(limit, Notify.PendingAmong(ns, |ns|)) && OldestFirst(ns, out)
    requires forall i: nat :: i in out <==> i < |ns| && Notify.Picked(ns, i, limit)
    ensures |out| <= limit && forall i, j | 0 <= i < j < |out| :: out[i] < out[j]
    ensures forall n | n in out :: n < |ns| && ns[n].status == Pending
    ensures forall n: nat | n < |ns| && ns[n].status == Pending && n !in out ::
              |out| == limit && forall i | 0 <= i < |out| :: out[i] < n
  {
    forall a: nat, b: nat | a <= b <= |ns| ensures Notify.PendingAmong(ns, a) <= Notify.PendingAmong(ns, b) {
      PendingMonotone(ns, a, b);
    }
    hide Notify.PendingAmong;
    forall n: nat | n < |ns| && ns[n].status == Pending && n !in out
      ensures |out| == limit && forall i | 0 <= i < |out| :: out[i] < n
    {
      assert !Notify.Picked(ns, n, limit) && Notify.PendingAmong(ns, n) <= Notify.PendingAmong(ns, |ns|);
    }
  }

  lemma {:induction false} PendingMonotone(ns: seq<Notification>, a: nat, b: nat)
    requires a <= b <= |ns|
    ensures Notify.PendingAmong(ns, a) <= Notify.PendingAmong(ns, b)
  {
    if a < b {
      PendingMonotone(ns, a, b - 1);
    }
  }

  lemma {:induction false} AllLaterAreBeyond(ns: seq<Notification>, i: nat, limit: nat)
    requires i <= |ns| && Notify.PendingAmong(ns, i) >= limit
    ensures Notify.PendingAmong(ns, |ns|) >= limit
    ensures forall j: nat | i <= j < |ns| :: !Notify.Picked(ns, j, limit)
    decreases |ns| - i
  {
    if i < |ns| {
      AllLaterAreBeyond(ns, i + 1, limit);
    }
  }

  /** The j-th element has exactly j pending ones before it. */
  ghost predicate OldestFirst(ns: seq<Notification>, out: seq<nat>) {
    forall j | 0 <= j < |out| :: out[j] < |ns| && ns[out[j]].status == Pending && Notify.PendingAmong(ns, out[j]) == j
  }

  lemma OldestFirstDistinct(ns: seq<Notification>, out: seq<nat>)
    requires OldestFirst(ns, out)
    ensures Distinct(out)
  {
  }

  lemma FrontOfPending(ns: seq<Notification>, pending: seq<nat>, limit: nat, finishes: nat, n: nat, j: nat)
    requires OldestFirst(ns, pending) && j < |ns|
    requires forall i: nat :: i in pending <==> i < |ns| && Notify.Picked(ns, i, limit)
    requires n == Min(|pending|, finishes) && |pending| <= limit
    ensures j in pending[..n] <==> Notify.Picked(ns, j, Min(limit, finishes))
  {
    hide Notify.PendingAmong;
    if Notify.Picked(ns, j, Min(limit, finishes)) {
      assert Notify.Picked(ns, j, limit) && j in pending;
      var p :| 0 <= p < |pending| && pending[p] == j;
      assert pending[..n][p] == j;
    }
  }

  lemma FlagsAreIndices(db: Db, cutoff: int)
    ensures forall i: nat :: i in Unreflected(db, cutoff) <==> i < |db.raws| && IsUnreflected(db, i, cutoff)
  {
  }

  lemma MarkKeepsIntake(db: Db, k: Key, now: int)
    requires IntakeInv(db)
    ensures IntakeInv(MarkAnalyzed(db, k, now))
  {
    hide InOrder;
  }

  lemma CommitKeepsIntake(db: Db, s: Snapshot, risk: Risk, now: int)
    requires IntakeInv(db)
    ensures IntakeInv(Commit(db, s, risk, now).0)
  {
    hide InOrder, Retired;
  }

  lemma CommitCovers(db: Db, s: Snapshot, risk: Risk, now: int)
    requires Honest(db.reviews, s)
    ensures var (after, res) := Commit(db, s, risk, now);
            res.Committed? ==>
              && s.review in after.reviews
              && CoversRow(after.AnalysesOf(s.review), after.reviews[s.review])
              && after.reviews[s.review].status != New
  {
    hide Retired;
  }
}
