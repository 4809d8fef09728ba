/** Every run of the pipeline, seen from one review, is a life of its case; so what holds of all lives holds of it. */
module CaseLife {
  import opened Base
  import opened RawLog
  import opened Tables
  import opened Routing
  import opened Pipeline
  import Notify

  function NoticesOf(ns: seq<Notification>, k: Key): seq<(string, Subject)> {
    if ns == [] then []
    else
      var n := |ns| - 1;
      NoticesOf(ns[..n], k) + if ns[n].review == k then [(ns[n].role, ns[n].subject)] else []
  }

  function FileOf(db: Db, k: Key): CaseFile {
    CaseFile(CaseAt(db, k), db.RolesOf(k), NoticesOf(db.notifications, k))
  }

  /** What an event of the pipeline means to the case of `k`. */
  function CaseEvents(s: Sys, e: Event, k: Key): seq<CaseEvent> {
    match e
    case RouteAnalysis(k', id, rule, at) =>
      if k' == k && id < |s.db.AnalysesOf(k)| then [Route(id, s.db.AnalysesOf(k)[id].risk, rule, at)] else []
    case SetCaseStatus(k', to, at) => if k' == k then [ChangeStatus(to, at)] else []
    case RemindCase(k', at) => if k' == k then [Remind(at)] else []
    case _ => []
  }

  function Projected(s: Sys, trace: seq<Event>, k: Key): seq<CaseEvent>
    decreases |trace|
  {
    if trace == [] then [] else CaseEvents(s, trace[0], k) + Projected(Next(s, trace[0]), trace[1..], k)
  }

  lemma {:induction false} NoticesAppend(ns: seq<Notification>, k: Key, k': Key, roles: seq<string>, subject: Subject)
    ensures NoticesOf(ns + Notices(k', roles, subject), k)
            == NoticesOf(ns, k) + (if k' == k then NoticeList(roles, subject) else [])
  {
    hide NoticesOf, NoticeList, Notices;
    OneMoreNotice(k', roles, subject);
    if roles == [] {
      assert ns + [] == ns;
    } else {
      var n := |roles| - 1;
      var last := Notification(k', roles[n], subject, Tables.Pending, 0);
      NoticesAppend(ns, k, k', roles[..n], subject);
      NoticesOfSnoc(ns + Notices(k', roles[..n], subject), last, k);
      assert ns + Notices(k', roles, subject) == (ns + Notices(k', roles[..n], subject)) + [last];
    }
  }

  lemma OneMoreNotice(k: Key, roles: seq<string>, subject: Subject)
    ensures roles == [] ==> Notices(k, roles, subject) == [] && NoticeList(roles, subject) == []
    ensures roles != [] ==>
              var n := |roles| - 1;
              && Notices(k, roles, subject)
                 == Notices(k, roles[..n], subject) + [Notification(k, roles[n], subject, Tables.Pending, 0)]
              && NoticeList(roles, subject) == NoticeList(roles[..n], subject) + [(roles[n], subject)]
  {
  }

  lemma NoticesOfSnoc(ns: seq<Notification>, x: Notification, k: Key)
    ensures NoticesOf(ns + [x], k) == NoticesOf(ns, k) + if x.review == k then [(x.role, x.subject)] else []
  {
    assert (ns + [x])[..|ns|] == ns;
  }

  /** The notifier changes statuses, not who is told what. */
  lemma {:induction false} TryKeepsNotices(ns: seq<Notification>, i: nat, ok: bool, k: Key)
    requires i < |ns|
    ensures NoticesOf(ns[i := Notify.Tried(ns[i], ok)], k) == NoticesOf(ns, k)
  {
    var n := |ns| - 1;
    var after := ns[i := Notify.Tried(ns[i], ok)];
    if i < n {
      TryKeepsNotices(ns[..n], i, ok, k);
      assert after[..n] == ns[..n][i := Notify.Tried(ns[i], ok)];
    } else {
      assert after[..n] == ns[..n];
    }
  }

  lemma RouteProjects(db: Db, k: Key, k': Key, id: nat, rule: Rule, at: int)
    requires id < |db.AnalysesOf(k')|
    ensures FileOf(RouteCase(db, k', id, rule, at).0, k)
            == if k' == k then Apply(FileOf(db, k), Route(id, db.AnalysesOf(k)[id].risk, rule, at)).0 else FileOf(db, k)
  {
    hide NoticesOf, Missing, Notices, NoticeList;
    var risk := db.AnalysesOf(k')[id].risk;
    NoticesAppend(db.notifications, k, k', rule.roles, CaseNotice(risk, rule.slaHours));
    assert FileOf(db, k').row == CaseAt(db, k');
  }

  lemma RemindProjects(db: Db, k: Key, k': Key, at: int)
    ensures FileOf(RemindOne(db, k', at), k) == if k' == k then Apply(FileOf(db, k), Remind(at)).0 else FileOf(db, k)
  {
    if k' in db.cases {
      var c := db.cases[k'];
      NoticesAppend(db.notifications, k, k', db.RolesOf(k'), Overdue(c.risk, c.dueAt));
    }
    hide NoticesOf, Notices, NoticeList;
  }

  lemma OneEvent(f: CaseFile, e: CaseEvent)
    ensures Run(f, [e]) == Apply(f, e).0
  {
    assert Run(Apply(f, e).0, [e][1..]) == Apply(f, e).0;
  }

  lemma StatusProjects(db: Db, k: Key, k': Key, to: CaseStatus, at: int)
    ensures FileOf(SetStatus(db, k', to, at).0, k)
            == if k' == k then Apply(FileOf(db, k), ChangeStatus(to, at)).0 else FileOf(db, k)
  {
    hide NoticesOf;
  }

  lemma OthersKeepFile(s: Sys, e: Event, k: Key)
    requires !e.RouteAnalysis? && !e.SetCaseStatus? && !e.RemindCase?
    ensures FileOf(NextDb(s, e), k) == FileOf(s.db, k)
  {
    hide NoticesOf, Ingest.IngestOne, InsertBatch, Analyze.Retired, Analyze.MarkedRow;
    match e
    case TryNotice(i, ok) =>
      if i < |s.db.notifications| {
        TryKeepsNotices(s.db.notifications, i, ok, k);
      }
    case IngestRaw(v) => Ingest.IngestShape(s.db, v);
    case _ =>
  }

  lemma StepProjects(s: Sys, e: Event, k: Key)
    ensures FileOf(NextDb(s, e), k) == Run(FileOf(s.db, k), CaseEvents(s, e, k))
  {
    hide FileOf, Apply, RouteCase, SetStatus, RemindOne, Ingest.IngestOne, InsertBatch, Analyze.Commit,
         Analyze.MarkAnalyzed, Analyze.SoftDelete;
    match e
    case RouteAnalysis(k', id, rule, at) =>
      if id < |s.db.AnalysesOf(k')| {
        RouteProjects(s.db, k, k', id, rule, at);
        if k' == k {
          OneEvent(FileOf(s.db, k), CaseEvents(s, e, k)[0]);
        }
      }
    case SetCaseStatus(k', to, at) =>
      StatusProjects(s.db, k, k', to, at);
      if k' == k {
        OneEvent(FileOf(s.db, k), ChangeStatus(to, at));
      }
    case RemindCase(k', at) =>
      RemindProjects(s.db, k, k', at);
      if k' == k {
        OneEvent(FileOf(s.db, k), Remind(at));
      }
    case _ => OthersKeepFile(s, e, k);
  }

  lemma {:induction false} RunAppend(f: CaseFile, a: seq<CaseEvent>, b: seq<CaseEvent>)
    ensures Run(f, a + b) == Run(Run(f, a), b)
    decreases |a|
  {
    if a == [] {
      assert a + b == b;
    } else {
      RunAppend(Apply(f, a[0]).0, a[1..], b);
      assert (a + b)[1..] == a[1..] + b;
    }
  }

  lemma {:induction false} RunProjects(s: Sys, trace: seq<Event>, k: Key)
    ensures FileOf(Exec(s, trace).db, k) == Run(FileOf(s.db, k), Projected(s, trace, k))
    decreases |trace|
  {
    if trace != [] {
      var next := Next(s, trace[0]);
      StepProjects(s, trace[0], k);
      RunProjects(next, trace[1..], k);
      RunAppend(FileOf(s.db, k), CaseEvents(s, trace[0], k), Projected(next, trace[1..], k));
    }
  }

  ghost predicate RulesDistinct(trace: seq<Event>) {
    forall e | e in trace && e.RouteAnalysis? :: Distinct(e.rule.roles)
  }

  lemma {:induction false} ProjectedRules(s: Sys, trace: seq<Event>, k: Key)
    requires RulesDistinct(trace)
    ensures RulesHaveDistinctRoles(Projected(s, trace, k))
    decreases |trace|
  {
    if trace != [] {
      assert trace[0] in trace;
      forall e | e in trace[1..] && e.RouteAnalysis? ensures Distinct(e.rule.roles) {
        assert e in trace;
      }
      hide NextDb, NextWorkers, Distinct;
      ProjectedRules(Next(s, trace[0]), trace[1..], k);
    }
  }

  /**
   * After any run of the whole pipeline, the case of any review: escalations and reminder rounds are bounded
   * by its reopenings; its rule and due time come from its last creation, escalation or reopening; its routing
   * notifications are as many as the roles of the rules applied; its roles are distinct and include its rule's.
   */
  lemma CaseAfterAnyRun(trace: seq<Event>, k: Key)
    requires RulesDistinct(trace)
    requires k in Exec(Init, trace).db.cases
    ensures var db := Exec(Init, trace).db;
            var c := db.cases[k];
            var life := Projected(Init, trace, k);
            && Count(NoCase, life, Outcome(Escalated)) <= 2 * (c.reopened + 1)
            && Count(NoCase, life, Reminded) <= 3 * (c.reopened + 1)
            && (exists at :: LastReset(NoCase, life) == Some((at, c.rule)) && c.dueAt == at + c.rule.slaHours * HOUR)
            && RoutingNotices(NoticesOf(db.notifications, k)) == RolesNotified(NoCase, life)
            && Distinct(db.RolesOf(k))
            && forall r | r in c.rule.roles :: r in db.RolesOf(k)
  {
    var life := Projected(Init, trace, k);
    RunProjects(Init, trace, k);
    assert FileOf(Init.db, k) == NoCase;
    EscalationAndReminderBounds(life);
    DueTimeIsLastReset(NoCase, life);
    NoticeLedger(NoCase, life);
    ProjectedRules(Init, trace, k);
    RolesHold(NoCase, life);
    var end := FileOf(Exec(Init, trace).db, k);
    assert end.row == Some(Exec(Init, trace).db.cases[k]);
    hide Exec, Projected, Run, Count, LastReset, RolesNotified, NoticesOf, RoutingNotices, Distinct;
  }
}
