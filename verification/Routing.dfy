/** review.analyzed -> cases: the routing matrix, manual status changes, SLA reminders and the unrouted scan. */
module Routing {
  import opened Base
  import opened RawLog
  import opened Tables

  datatype RouteOutcome = Created | Escalated | Reopened | Acknowledged | Replayed

  const HOUR := 3600

  /** The decision matrix on the locked case row; `id` and `risk` are those of the analysis being routed. */
  function RouteRow(locked: Option<Case>, id: nat, risk: Risk, rule: Rule, now: int): (Case, RouteOutcome) {
    var due := now + rule.slaHours * HOUR;
    match locked
    case None => (Case(risk, rule, Some(id), Open, due, None, 0, None), Created)
    case Some(c) =>
      if c.analysis == Some(id) then (c, Replayed)
      else if c.status in {Resolved, Closed} then
        (Case(risk, rule, Some(id), Open, due, None, c.reopened + 1, c.respondedAt), Reopened)
      else if risk.Rank() > c.risk.Rank() then
        (Case(risk, rule, Some(id), c.status, due, None, c.reopened, c.respondedAt), Escalated)
      else (c.(analysis := Some(id)), Acknowledged)
  }

  /** The outcomes that rewrite rule and due time, and notify. */
  predicate Resets(outcome: RouteOutcome) {
    outcome in {Created, Escalated, Reopened}
  }

  /** The rule's roles that have no assignment yet, in the rule's order. */
  function Missing(roles: seq<string>, existing: seq<string>): seq<string> {
    if roles == [] then []
    else
      var n := |roles| - 1;
      Missing(roles[..n], existing) + if roles[n] in existing then [] else [roles[n]]
  }

  /** One pending notification for each role. */
  function Notices(k: Key, roles: seq<string>, subject: Subject): seq<Notification> {
    seq(|roles|, i requires 0 <= i < |roles| => Notification(k, roles[i], subject, Pending, 0))
  }

  function CaseAt(db: Db, k: Key): Option<Case> {
    if k in db.cases then Some(db.cases[k]) else None
  }

  /** The routing transaction for one analysis of review `k`, read earlier and perhaps no longer current. */
  function RouteCase(db: Db, k: Key, id: nat, rule: Rule, now: int): (Db, RouteOutcome)
    requires id < |db.AnalysesOf(k)|
  {
    var risk := db.AnalysesOf(k)[id].risk;
    var (row, outcome) := RouteRow(CaseAt(db, k), id, risk, rule, now);
    if outcome == Replayed then (db, Replayed)
    else if outcome == Acknowledged then (db.(cases := db.cases[k := row]), Acknowledged)
    else
      (db.(cases := db.cases[k := row],
           assignments := db.assignments[k := db.RolesOf(k) + Missing(rule.roles, db.RolesOf(k))],
           notifications := db.notifications + Notices(k, rule.roles, CaseNotice(risk, rule.slaHours))),
       outcome)
  }

  /**
   * When each outcome of routing occurs, and the row it leaves, column by column: a claimed analysis changes
   * nothing; any other one reopens a resolved or closed case, escalates an active one that is less risky, and is
   * acknowledged by the rest.
   */
  lemma RouteOutcomeExactly(db: Db, k: Key, id: nat, rule: Rule, now: int)
    requires k in db.analyses && id < |db.analyses[k]|
    ensures var (after, outcome) := RouteCase(db, k, id, rule, now);
            var risk := db.analyses[k][id].risk;
            && k in after.cases && after.cases == db.cases[k := after.cases[k]] && after.cases[k].analysis == Some(id)
            && var d := after.cases[k];
               if k !in db.cases then
                 && outcome == Created && d.status == Open && d.reopened == 0 && d.respondedAt == None
                 && d.risk == risk && d.rule == rule && d.dueAt == now + 3600 * rule.slaHours && d.remindedAt == None
               else
                 var c := db.cases[k];
                 var other := c.analysis != Some(id);
                 var over := c.status == Resolved || c.status == Closed;
                 var riskier := (risk == High && c.risk != High) || (risk == Medium && c.risk == Low);
                 && (outcome == Replayed <==> !other)
                 && (outcome == Reopened <==> other && over)
                 && (outcome == Escalated <==> other && !over && riskier)
                 && (outcome == Acknowledged <==> other && !over && !riskier)
                 && (!other ==> after == db)
                 && d.respondedAt == c.respondedAt
                 && d.reopened == c.reopened + (if other && over then 1 else 0)
                 && d.status == (if other && over then Open else c.status)
                 && if other && (over || riskier)
                    then
                      && d.risk == risk && d.rule == rule
                      && d.dueAt == now + 3600 * rule.slaHours && d.remindedAt == None
                    else d.risk == c.risk && d.rule == c.rule && d.dueAt == c.dueAt && d.remindedAt == c.remindedAt
  {
    hide Missing, Notices;
  }

  /**
   * Who is told and who is assigned: on creation, reopening and escalation one pending message for each role of
   * the rule, and all these roles are assigned; otherwise nobody.
   */
  lemma RouteTellsExactly(db: Db, k: Key, id: nat, rule: Rule, now: int, r: string)
    requires k in db.analyses && id < |db.analyses[k]|
    ensures var (after, outcome) := RouteCase(db, k, id, rule, now);
            var tells := outcome in {Created, Reopened, Escalated};
            var before := |db.notifications|;
            && (r in after.RolesOf(k) <==> r in db.RolesOf(k) || (tells && r in rule.roles))
            && |after.notifications| == before + (if tells then |rule.roles| else 0)
            && after.notifications[..before] == db.notifications
            && forall i | before <= i < |after.notifications| ::
                 && after.notifications[i].review == k && after.notifications[i].role == rule.roles[i - before]
                 && after.notifications[i].subject == CaseNotice(db.analyses[k][id].risk, rule.slaHours)
                 && after.notifications[i].status == Pending && after.notifications[i].retries == 0
  {
    MissingMembers(rule.roles, db.RolesOf(k), r);
    hide Missing, RouteRow;
  }

  /** The review's current analysis, unless the review is deleted or unknown. */
  function CurrentAnalysis(db: Db, k: Key): Option<nat> {
    if k in db.reviews && !db.reviews[k].deleted then CurrentIndex(db.AnalysesOf(k)) else None
  }

  function CurrentIndex(analyses: seq<Analysis>): (r: Option<nat>)
    ensures r.Some? ==> r.value < |analyses| && analyses[r.value].current
    ensures r.None? ==> forall a | a in analyses :: !a.current
  {
    if analyses == [] then None
    else
      var n := |analyses| - 1;
      if analyses[n].current then Some(n) else CurrentIndex(analyses[..n])
  }

  datatype RouteResult = NoAnalysis | NoRule | Routed(outcome: RouteOutcome)

  /** One delivery of review.analyzed; `rules` holds the enabled rule of each risk level. */
  function RouteOne(db: Db, k: Key, rules: map<Risk, Rule>, now: int): (Db, RouteResult) {
    match CurrentAnalysis(db, k)
    case None => (db, NoAnalysis)
    case Some(id) =>
      var risk := db.AnalysesOf(k)[id].risk;
      if risk !in rules then (db, NoRule)
      else var (after, outcome) := RouteCase(db, k, id, rules[risk], now); (after, Routed(outcome))
  }

  /**
   * What a delivery routes: the newest current analysis of a review that is not deleted, by the rule of that
   * analysis's risk; without such an analysis or rule nothing changes.
   */
  lemma DeliveryExactly(db: Db, k: Key, rules: map<Risk, Rule>, now: int, i: nat)
    requires k in db.analyses && i < |db.analyses[k]| && db.analyses[k][i].current
    requires forall j | i < j < |db.analyses[k]| :: !db.analyses[k][j].current
    ensures var risk := db.analyses[k][i].risk;
            var (after, res) := RouteOne(db, k, rules, now);
            if k !in db.reviews || db.reviews[k].deleted then res == NoAnalysis && after == db
            else if risk !in rules then res == NoRule && after == db
            else res.Routed? && (after, res.outcome) == RouteCase(db, k, i, rules[risk], now)
  {
    NewestCurrent(db.analyses[k], i);
    hide RouteCase;
  }

  lemma {:induction false} NewestCurrent(analyses: seq<Analysis>, i: nat)
    requires i < |analyses| && analyses[i].current && forall j | i < j < |analyses| :: !analyses[j].current
    ensures CurrentIndex(analyses) == Some(i)
  {
    if i < |analyses| - 1 {
      NewestCurrent(analyses[..|analyses| - 1], i);
    }
  }

  /**
   * The scan finds a review exactly if it is not deleted and its newest current analysis is older than the cutoff
   * and not the one that its case claims; a review without a current analysis is never found.
   */
  lemma UnroutedExactly(db: Db, k: Key, cutoff: int)
    ensures k in Unrouted(db, cutoff) <==>
              && k in db.reviews && !db.reviews[k].deleted && k in db.analyses
              && exists i | 0 <= i < |db.analyses[k]| ::
                   && db.analyses[k][i].current && (forall j | i < j < |db.analyses[k]| :: !db.analyses[k][j].current)
                   && db.analyses[k][i].createdAt < cutoff
                   && (k in db.cases ==> db.cases[k].analysis != Some(i))
  {
    if k in db.analyses {
      forall i: nat | i < |db.analyses[k]| && db.analyses[k][i].current
                      && forall j | i < j < |db.analyses[k]| :: !db.analyses[k][j].current
        ensures CurrentIndex(db.analyses[k]) == Some(i)
      {
        NewestCurrent(db.analyses[k], i);
      }
      IndexIsNewest(db.analyses[k]);
    }
    hide CurrentIndex;
  }

  lemma {:induction false} IndexIsNewest(analyses: seq<Analysis>)
    ensures var r := CurrentIndex(analyses);
            r.Some? ==> forall j | r.value < j < |analyses| :: !analyses[j].current
  {
    if analyses != [] {
      IndexIsNewest(analyses[..|analyses| - 1]);
    }
  }

  /** Deliveries in turn. */
  function RouteAll(db: Db, keys: seq<Key>, rules: map<Risk, Rule>, at: int): Db {
    if keys == [] then db else RouteOne(RouteAll(db, keys[..|keys| - 1], rules, at), keys[|keys| - 1], rules, at).0
  }

  /** The scan for current analyses that no case claims. */
  predicate IsUnrouted(db: Db, k: Key, cutoff: int) {
    var id := CurrentAnalysis(db, k);
    && id.Some? && db.AnalysesOf(k)[id.value].createdAt < cutoff
    && (k in db.cases ==> db.cases[k].analysis != id)
  }

  function Unrouted(db: Db, cutoff: int): set<Key> {
    set k | k in db.reviews && IsUnrouted(db, k, cutoff)
  }

  // ---- Manual status changes and SLA reminders ----

  predicate ValidTransition(from: CaseStatus, to: CaseStatus) {
    match from
    case Open => to in {InProgress, Resolved}
    case InProgress => to in {Resolved, Open}
    case Resolved => to in {Closed, InProgress}
    case Closed => false
  }

  function StatusRow(c: Case, to: CaseStatus, now: int): Case {
    c.(status := to, respondedAt := if to == Resolved && c.respondedAt.None? then Some(now) else c.respondedAt)
  }

  function SetStatus(db: Db, k: Key, to: CaseStatus, now: int): (Db, bool) {
    if k in db.cases && ValidTransition(db.cases[k].status, to)
    then (db.(cases := db.cases[k := StatusRow(db.cases[k], to, now)]), true)
    else (db, false)
  }

  /**
   * A manual change goes through exactly from open to in progress or resolved, from in progress to resolved or
   * open, and from resolved to closed or in progress; the first resolution is stamped, nothing else changes.
   */
  lemma StatusExactly(db: Db, k: Key, to: CaseStatus, now: int)
    ensures var (after, ok) := SetStatus(db, k, to, now);
            && (ok <==> k in db.cases
                        && var from := db.cases[k].status;
                           || (from == Open && (to == InProgress || to == Resolved))
                           || (from == InProgress && (to == Resolved || to == Open))
                           || (from == Resolved && (to == Closed || to == InProgress)))
            && (!ok ==> after == db)
            && (ok ==>
                  && k in after.cases && after == db.(cases := db.cases[k := after.cases[k]])
                  && after.cases[k] == db.cases[k].(status := to, respondedAt := after.cases[k].respondedAt)
                  && after.cases[k].respondedAt
                     == if to == Resolved && db.cases[k].respondedAt == None then Some(now) else db.cases[k].respondedAt)
  {
  }

  predicate IsDue(c: Case, now: int) {
    c.status in {Open, InProgress} && c.dueAt < now && c.remindedAt.None?
  }

  function RemindOne(db: Db, k: Key, now: int): Db {
    if k in db.cases && IsDue(db.cases[k], now) then
      var c := db.cases[k];
      db.(cases := db.cases[k := c.(remindedAt := Some(now))],
          notifications := db.notifications + Notices(k, db.RolesOf(k), Overdue(c.risk, c.dueAt)))
    else db
  }

  /**
   * A case is reminded exactly when it is open or in progress, past its due time and not reminded since; all its
   * roles are then told the risk and the due time, and only the mark changes.
   */
  lemma RemindExactly(db: Db, k: Key, now: int)
    ensures var after := RemindOne(db, k, now);
            var before := |db.notifications|;
            if k in db.cases && (db.cases[k].status == Open || db.cases[k].status == InProgress)
               && db.cases[k].dueAt < now && db.cases[k].remindedAt == None
            then
              && after == db.(cases := db.cases[k := db.cases[k].(remindedAt := Some(now))],
                              notifications := after.notifications)
              && |after.notifications| == before + |db.RolesOf(k)| && after.notifications[..before] == db.notifications
              && forall i | before <= i < |after.notifications| ::
                   && after.notifications[i].review == k && after.notifications[i].role == db.RolesOf(k)[i - before]
                   && after.notifications[i].subject == Overdue(db.cases[k].risk, db.cases[k].dueAt)
                   && after.notifications[i].status == Pending && after.notifications[i].retries == 0
            else after == db
  {
  }

  /** One pass over the cases it picked. */
  function RemindAll(db: Db, picked: seq<Key>, now: int): Db {
    if picked == [] then db
    else RemindOne(RemindAll(db, picked[..|picked| - 1], now), picked[|picked| - 1], now)
  }

  // ---- The life of one case ----

  /** All that routing keeps about one review. */
  datatype CaseFile = CaseFile(row: Option<Case>, roles: seq<string>, notices: seq<(string, Subject)>)

  const NoCase := CaseFile(None, [], [])

  datatype CaseEvent =
    | Route(id: nat, risk: Risk, rule: Rule, at: int)
    | ChangeStatus(to: CaseStatus, at: int)
    | Remind(at: int)

  datatype Effect = Outcome(outcome: RouteOutcome) | StatusChanged | Reminded | Nothing

  function NoticeList(roles: seq<string>, subject: Subject): seq<(string, Subject)> {
    seq(|roles|, i requires 0 <= i < |roles| => (roles[i], subject))
  }

  function Apply(f: CaseFile, e: CaseEvent): (CaseFile, Effect) {
    match e
    case Route(id, risk, rule, at) =>
      var (row, outcome) := RouteRow(f.row, id, risk, rule, at);
      if Resets(outcome) then
        (CaseFile(Some(row), f.roles + Missing(rule.roles, f.roles),
                  f.notices + NoticeList(rule.roles, CaseNotice(risk, rule.slaHours))), Outcome(outcome))
      else (f.(row := Some(row)), Outcome(outcome))
    case ChangeStatus(to, at) =>
      if f.row.Some? && ValidTransition(f.row.value.status, to)
      then (f.(row := Some(StatusRow(f.row.value, to, at))), StatusChanged)
      else (f, Nothing)
    case Remind(at) =>
      if f.row.Some? && IsDue(f.row.value, at) then
        var c := f.row.value;
        (CaseFile(Some(c.(remindedAt := Some(at))), f.roles,
                  f.notices + NoticeList(f.roles, Overdue(c.risk, c.dueAt))), Reminded)
      else (f, Nothing)
  }

  function Run(f: CaseFile, trace: seq<CaseEvent>): CaseFile
    decreases |trace|
  {
    if trace == [] then f else Run(Apply(f, trace[0]).0, trace[1..])
  }

  /** How often an effect happens along a trace. */
  function Count(f: CaseFile, trace: seq<CaseEvent>, e: Effect): nat
    decreases |trace|
  {
    if trace == [] then 0
    else
      var (after, effect) := Apply(f, trace[0]);
      Count(after, trace[1..], e) + if effect == e then 1 else 0
  }

  /** Room left for escalations and reminders before the next reopening. */
  ghost predicate WithinBudget(f: CaseFile, escalations: nat, reminders: nat) {
    match f.row
    case None => escalations == 0 && reminders == 0
    case Some(c) =>
      && escalations <= 2 * c.reopened + c.risk.Rank() - 1
      && reminders + (if c.remindedAt.None? then 1 else 0) <= 1 + escalations + c.reopened
  }

  lemma {:induction false} BudgetHolds(f: CaseFile, trace: seq<CaseEvent>, escalations: nat, reminders: nat)
    requires WithinBudget(f, escalations, reminders)
    ensures WithinBudget(Run(f, trace), escalations + Count(f, trace, Outcome(Escalated)),
                         reminders + Count(f, trace, Reminded))
    decreases |trace|
  {
    if trace != [] {
      var (after, effect) := Apply(f, trace[0]);
      BudgetHolds(after, trace[1..],
                  escalations + (if effect == Outcome(Escalated) then 1 else 0),
                  reminders + (if effect == Reminded then 1 else 0));
    }
  }

  /** Over a whole life: at most two escalations and three reminder rounds for each opening of the case. */
  lemma EscalationAndReminderBounds(trace: seq<CaseEvent>)
    ensures var end := Run(NoCase, trace);
            end.row.Some? ==>
              && Count(NoCase, trace, Outcome(Escalated)) <= 2 * (end.row.value.reopened + 1)
              && Count(NoCase, trace, Reminded) <= 3 * (end.row.value.reopened + 1)
    ensures Run(NoCase, trace).row.None? ==>
              Count(NoCase, trace, Outcome(Escalated)) == 0 && Count(NoCase, trace, Reminded) == 0
  {
    BudgetHolds(NoCase, trace, 0, 0);
  }

  /** The bounds are reached: two escalations and three reminder rounds without a reopening. */
  lemma BoundsAreTight(low: Rule, medium: Rule, high: Rule)
    requires low.slaHours == medium.slaHours == high.slaHours == 1
    ensures var trace := [Route(0, Low, low, 0)] + ([Remind(9999)] + ([Route(1, Medium, medium, 0)] + ([Remind(9999)]
                         + ([Route(2, High, high, 0)] + ([Remind(9999)] + [])))));
            && Count(NoCase, trace, Outcome(Escalated)) == 2
            && Count(NoCase, trace, Reminded) == 3
            && Run(NoCase, trace).row.Some? && Run(NoCase, trace).row.value.reopened == 0
  {
    hide Missing, NoticeList, Run, Count;
    var f1 := Apply(NoCase, Route(0, Low, low, 0)).0;
    var f2 := Apply(f1, Remind(9999)).0;
    var f3 := Apply(f2, Route(1, Medium, medium, 0)).0;
    var f4 := Apply(f3, Remind(9999)).0;
    var f5 := Apply(f4, Route(2, High, high, 0)).0;
    var f6 := Apply(f5, Remind(9999)).0;
    var t5 := [Remind(9999)] + [];
    var t4 := [Route(2, High, high, 0)] + t5;
    var t3 := [Remind(9999)] + t4;
    var t2 := [Route(1, Medium, medium, 0)] + t3;
    var t1 := [Remind(9999)] + t2;
    OneStep(NoCase, Route(0, Low, low, 0), t1);
    OneStep(f1, Remind(9999), t2);
    OneStep(f2, Route(1, Medium, medium, 0), t3);
    OneStep(f3, Remind(9999), t4);
    OneStep(f4, Route(2, High, high, 0), t5);
    OneStep(f5, Remind(9999), []);
    NoStep(f6);
  }

  lemma NoStep(f: CaseFile)
    ensures Run(f, []) == f && Count(f, [], Outcome(Escalated)) == 0 && Count(f, [], Reminded) == 0
  {
  }

  lemma OneStep(f: CaseFile, e: CaseEvent, rest: seq<CaseEvent>)
    ensures var (after, effect) := Apply(f, e);
            && Run(f, [e] + rest) == Run(after, rest)
            && Count(f, [e] + rest, Outcome(Escalated))
               == Count(after, rest, Outcome(Escalated)) + (if effect == Outcome(Escalated) then 1 else 0)
            && Count(f, [e] + rest, Reminded) == Count(after, rest, Reminded) + (if effect == Reminded then 1 else 0)
  {
    assert ([e] + rest)[0] == e && ([e] + rest)[1..] == rest;
  }

  /** Time and rule of the last creation, escalation or reopening. */
  function LastReset(f: CaseFile, trace: seq<CaseEvent>): Option<(int, Rule)>
    decreases |trace|
  {
    if trace == [] then None
    else
      var (after, effect) := Apply(f, trace[0]);
      var later := LastReset(after, trace[1..]);
      if later.Some? then later
      else if trace[0].Route? && effect.Outcome? && Resets(effect.outcome) then Some((trace[0].at, trace[0].rule))
      else None
  }

  /** Rule and due time always come from the last reset; nothing else moves them. */
  lemma {:induction false} DueTimeIsLastReset(f: CaseFile, trace: seq<CaseEvent>)
    ensures var end := Run(f, trace);
            match LastReset(f, trace)
            case Some((at, rule)) =>
              end.row.Some? && end.row.value.rule == rule && end.row.value.dueAt == at + rule.slaHours * HOUR
            case None =>
              (end.row.Some? <==> f.row.Some?)
              && (f.row.Some? ==> end.row.value.rule == f.row.value.rule && end.row.value.dueAt == f.row.value.dueAt)
    decreases |trace|
  {
    if trace != [] {
      DueTimeIsLastReset(Apply(f, trace[0]).0, trace[1..]);
    }
  }

  // ---- Duplicate deliveries ----

  /** The trace without the routings that found their analysis already claimed. */
  function WithoutReplays(f: CaseFile, trace: seq<CaseEvent>): seq<CaseEvent>
    decreases |trace|
  {
    if trace == [] then []
    else
      var (after, effect) := Apply(f, trace[0]);
      (if effect == Outcome(Replayed) then [] else [trace[0]]) + WithoutReplays(after, trace[1..])
  }

  /** Any number of repeated routings of the claimed analysis, anywhere: same case, roles and notifications. */
  lemma {:induction false} ReplaysChangeNothing(f: CaseFile, trace: seq<CaseEvent>)
    ensures Run(f, WithoutReplays(f, trace)) == Run(f, trace)
    ensures Count(f, WithoutReplays(f, trace), Outcome(Replayed)) == 0
    decreases |trace|
  {
    if trace != [] {
      var (after, effect) := Apply(f, trace[0]);
      ReplaysChangeNothing(after, trace[1..]);
      if effect == Outcome(Replayed) {
        assert after == f;
        assert WithoutReplays(f, trace) == WithoutReplays(after, trace[1..]);
      } else {
        var kept := WithoutReplays(after, trace[1..]);
        assert ([trace[0]] + kept)[0] == trace[0] && ([trace[0]] + kept)[1..] == kept;
        assert WithoutReplays(f, trace) == [trace[0]] + kept;
      }
    }
  }

  /** Routing notices among the notifications of a case. */
  function RoutingNotices(notices: seq<(string, Subject)>): nat {
    if notices == [] then 0
    else
      var n := |notices| - 1;
      RoutingNotices(notices[..n]) + if notices[n].1.CaseNotice? then 1 else 0
  }

  lemma {:induction false} RoutingNoticesAppend(notices: seq<(string, Subject)>, roles: seq<string>, subject: Subject)
    ensures RoutingNotices(notices + NoticeList(roles, subject))
            == RoutingNotices(notices) + (if subject.CaseNotice? then |roles| else 0)
  {
    if roles == [] {
      assert notices + NoticeList(roles, subject) == notices;
    } else {
      var n := |roles| - 1;
      RoutingNoticesAppend(notices, roles[..n], subject);
      var all := notices + NoticeList(roles, subject);
      assert all[..|all| - 1] == notices + NoticeList(roles[..n], subject);
    }
  }

  /** The role counts of the rules applied at creations, escalations and reopenings. */
  function RolesNotified(f: CaseFile, trace: seq<CaseEvent>): nat
    decreases |trace|
  {
    if trace == [] then 0
    else
      var (after, effect) := Apply(f, trace[0]);
      (if trace[0].Route? && Resets(effect.outcome) then |trace[0].rule.roles| else 0)
      + RolesNotified(after, trace[1..])
  }

  lemma {:induction false} NoticeLedger(f: CaseFile, trace: seq<CaseEvent>)
    ensures RoutingNotices(Run(f, trace).notices) == RoutingNotices(f.notices) + RolesNotified(f, trace)
    decreases |trace|
  {
    if trace != [] {
      NoticeLedger(Apply(f, trace[0]).0, trace[1..]);
      match trace[0] {
        case Route(id, risk, rule, at) =>
          RoutingNoticesAppend(f.notices, rule.roles, CaseNotice(risk, rule.slaHours));
        case ChangeStatus(_, _) =>
        case Remind(at) =>
          if f.row.Some? {
            RoutingNoticesAppend(f.notices, f.roles, Overdue(f.row.value.risk, f.row.value.dueAt));
          }
      }
    }
  }

  // ---- Assigned roles ----

  lemma {:induction false} MissingMembers(roles: seq<string>, existing: seq<string>, r: string)
    ensures r in Missing(roles, existing) <==> r in roles && r !in existing
  {
    if roles != [] {
      MissingMembers(roles[..|roles| - 1], existing, r);
      assert roles == roles[..|roles| - 1] + [roles[|roles| - 1]];
    }
  }

  ghost predicate NoNewRepeats(roles: seq<string>, existing: seq<string>) {
    forall i, j | 0 <= i < j < |roles| && roles[i] == roles[j] :: roles[i] in existing
  }

  /**
   * Roles stay free of duplicates exactly when the rule names no unassigned role twice: the loop does not
   * see the assignments it makes itself.
   */
  lemma {:induction false} RolesDistinctExactly(roles: seq<string>, existing: seq<string>)
    requires Distinct(existing)
    ensures Distinct(existing + Missing(roles, existing)) <==> NoNewRepeats(roles, existing)
  {
    if roles == [] {
      assert existing + Missing(roles, existing) == existing;
    } else {
      var n := |roles| - 1;
      var r := roles[n];
      var front := existing + Missing(roles[..n], existing);
      RolesDistinctExactly(roles[..n], existing);
      MissingMembers(roles[..n], existing, r);
      assert NoNewRepeats(roles, existing) <==> NoNewRepeats(roles[..n], existing) && (r in roles[..n] ==> r in existing);
      if r in existing {
        assert existing + Missing(roles, existing) == front;
      } else {
        assert existing + Missing(roles, existing) == front + [r];
        DistinctSnoc(front, r);
      }
    }
  }

  lemma DistinctSnoc(s: seq<string>, r: string)
    ensures Distinct(s + [r]) <==> Distinct(s) && r !in s
  {
    var t := s + [r];
    if Distinct(t) {
      forall i, j | 0 <= i < j < |s| ensures s[i] != s[j] {
        assert t[i] != t[j];
      }
      assert forall i | 0 <= i < |s| :: t[i] != t[|s|] && t[i] == s[i];
    }
  }

  ghost predicate RolesCovered(f: CaseFile) {
    && Distinct(f.roles)
    && (f.row.Some? ==> forall r | r in f.row.value.rule.roles :: r in f.roles)
  }

  ghost predicate RulesHaveDistinctRoles(trace: seq<CaseEvent>) {
    forall e | e in trace && e.Route? :: Distinct(e.rule.roles)
  }

  lemma RolesStep(f: CaseFile, e: CaseEvent)
    requires RolesCovered(f)
    requires e.Route? ==> Distinct(e.rule.roles)
    ensures f.roles <= Apply(f, e).0.roles
    ensures RolesCovered(Apply(f, e).0)
  {
    if e.Route? {
      RolesDistinctExactly(e.rule.roles, f.roles);
      forall r ensures r in Missing(e.rule.roles, f.roles) <==> r in e.rule.roles && r !in f.roles {
        MissingMembers(e.rule.roles, f.roles, r);
      }
      hide Missing;
    }
  }

  /** Assigned roles only grow, never repeat, and always include every role of the case's rule. */
  lemma {:induction false} RolesHold(f: CaseFile, trace: seq<CaseEvent>)
    requires RolesCovered(f) && RulesHaveDistinctRoles(trace)
    ensures f.roles <= Run(f, trace).roles
    ensures RolesCovered(Run(f, trace))
    decreases |trace|
  {
    if trace != [] {
      assert trace[0] in trace;
      RolesStep(f, trace[0]);
      forall e | e in trace[1..] && e.Route? ensures Distinct(e.rule.roles) {
        assert e in trace;
      }
      hide Apply, RolesCovered, Distinct;
      RolesHold(Apply(f, trace[0]).0, trace[1..]);
    }
  }

  // ---- The database invariant ----

  /** A case claims one of its review's analyses and is at least as risky. */
  ghost predicate ClaimValid(db: Db, k: Key) {
    k in db.cases && db.cases[k].analysis.Some? ==>
      && db.cases[k].analysis.value < |db.AnalysesOf(k)|
      && db.AnalysesOf(k)[db.cases[k].analysis.value].risk.Rank() <= db.cases[k].risk.Rank()
  }

  ghost predicate RoutingInv(db: Db) {
    forall k :: ClaimValid(db, k)
  }

  lemma RouteKeeps(db: Db, k: Key, id: nat, rule: Rule, now: int)
    requires RoutingInv(db) && id < |db.AnalysesOf(k)|
    ensures var (after, outcome) := RouteCase(db, k, id, rule, now);
            RoutingInv(after) && k in after.cases && after.cases[k].analysis == Some(id)
  {
    hide Missing, Notices;
    forall k' ensures ClaimValid(RouteCase(db, k, id, rule, now).0, k') {
      assert ClaimValid(db, k');
    }
  }

  lemma StatusAndReminderKeep(db: Db, k: Key, to: CaseStatus, now: int)
    requires RoutingInv(db)
    ensures RoutingInv(SetStatus(db, k, to, now).0)
    ensures RoutingInv(RemindOne(db, k, now))
  {
    hide Notices;
    forall k' ensures ClaimValid(SetStatus(db, k, to, now).0, k') && ClaimValid(RemindOne(db, k, now), k') {
      assert ClaimValid(db, k');
    }
  }
}
