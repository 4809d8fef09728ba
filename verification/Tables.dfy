/** The rows of the business tables. A review is named by its (source, external id), which is unique. */
module Tables {
  import opened Base
  import opened RawLog

  datatype ReviewStatus = New | Analyzed

  /** `rating` is in tenths, as the column numeric(3,1) stores it. `version` is kept by the touch trigger. */
  datatype Review = Review(raw: nat, author: string, rating: Option<int>, content: string, postedAt: Option<int>,
                           url: string, store: Option<int>, status: ReviewStatus, deleted: bool,
                           version: nat, updatedAt: int)

  /** The touch trigger of an updated row. */
  function Touched(r: Review, now: int): Review {
    r.(version := r.version + 1, updatedAt := now)
  }

  datatype Risk = Low | Medium | High {
    function Rank(): nat {
      match this
      case Low => 1
      case Medium => 2
      case High => 3
    }
  }

  /** The input hash covers model, rating and content; it is taken to be injective and stored as its preimage. */
  datatype Input = Input(model: string, rating: Option<int>, content: string)

  /** An analysis is named by its review and its index among that review's analyses. */
  datatype Analysis = Analysis(input: Input, risk: Risk, current: bool, createdAt: int)

  datatype Rule = Rule(id: int, risk: Risk, roles: seq<string>, slaHours: nat, requireApproval: bool)

  datatype CaseStatus = Open | InProgress | Resolved | Closed

  datatype Case = Case(risk: Risk, rule: Rule, analysis: Option<nat>, status: CaseStatus, dueAt: int,
                       remindedAt: Option<int>, reopened: nat, respondedAt: Option<int>)

  datatype Subject = CaseNotice(risk: Risk, slaHours: nat) | Overdue(overdueRisk: Risk, dueAt: int)

  datatype NotificationStatus = Pending | Sent | Failed

  datatype Notification = Notification(review: Key, role: string, subject: Subject,
                                       status: NotificationStatus, retries: nat)

  /** The database as a value. */
  datatype Db = Db(raws: seq<Raw>, quarantine: set<nat>, reviews: map<Key, Review>,
                   analyses: map<Key, seq<Analysis>>, cases: map<Key, Case>,
                   assignments: map<Key, seq<string>>, notifications: seq<Notification>)
  {
    function AnalysesOf(k: Key): seq<Analysis> {
      if k in analyses then analyses[k] else []
    }

    function RolesOf(k: Key): seq<string> {
      if k in assignments then assignments[k] else []
    }
  }

  const EmptyDb := Db([], {}, map[], map[], map[], map[], [])
}
