/** The notification queue: one notifier, oldest first, three attempts. Rows are kept in created_at order. */
module Notify {
  import opened Base
  import opened Tables
  import opened RawLog

  const MAX_TRIES := 3

  function Tried(n: Notification, ok: bool): Notification {
    if ok then n.(status := Sent)
    else n.(retries := n.retries + 1, status := if n.retries + 1 >= MAX_TRIES then Failed else Pending)
  }

  /** How many of the first `i` notifications are pending. */
  function PendingAmong(ns: seq<Notification>, i: nat): nat
    requires i <= |ns|
  {
    if i == 0 then 0 else PendingAmong(ns, i - 1) + if ns[i - 1].status == Pending then 1 else 0
  }

  /** WHERE status = 'pending' ORDER BY created_at LIMIT limit */
  predicate Picked(ns: seq<Notification>, i: nat, limit: nat)
    requires i < |ns|
  {
    ns[i].status == Pending && PendingAmong(ns, i) < limit
  }

  /** One notifier pass; the sender accepts the messages in `accepted`. */
  function Pass(ns: seq<Notification>, accepted: set<nat>, limit: nat): seq<Notification> {
    seq(|ns|, i requires 0 <= i < |ns| => if Picked(ns, i, limit) then Tried(ns[i], i in accepted) else ns[i])
  }

  /**
   * One notifier pass after some arrivals. A message is sent first and its result written then; only the first
   * `writes` results can be written, and the pass stops at the one that cannot.
   */
  datatype Round = Round(arrivals: seq<Notification>, accepted: set<nat>, writes: nat)

  function AfterRound(ns: seq<Notification>, r: Round, limit: nat): seq<Notification> {
    Pass(ns + r.arrivals, r.accepted, Min(limit, r.writes))
  }

  predicate IsRecorded(queue: seq<Notification>, i: nat, limit: nat, writes: nat)
    requires i < |queue|
  {
    Picked(queue, i, Min(limit, writes))
  }

  predicate IsSent(queue: seq<Notification>, i: nat, limit: nat, writes: nat)
    requires i < |queue|
  {
    Picked(queue, i, Min(limit, writes + 1))
  }

  function Rounds(ns: seq<Notification>, plan: seq<Round>, limit: nat): (r: seq<Notification>)
    ensures |r| >= |ns|
    decreases |plan|
  {
    if plan == [] then ns else Rounds(AfterRound(ns, plan[0], limit), plan[1..], limit)
  }

  ghost predicate Valid(ns: seq<Notification>) {
    forall i | 0 <= i < |ns| && ns[i].status == Pending :: ns[i].retries < MAX_TRIES
  }

  ghost predicate ValidPlan(plan: seq<Round>) {
    forall r | r in plan :: Valid(r.arrivals)
  }

  // ---- What is sent, and what of it is recorded ----

  /** Passes that sent notification `i`. */
  function Sends(ns: seq<Notification>, plan: seq<Round>, limit: nat, i: nat): nat
    requires i < |ns|
    decreases |plan|
  {
    if plan == [] then 0
    else Sends(AfterRound(ns, plan[0], limit), plan[1..], limit, i)
         + if IsSent(ns + plan[0].arrivals, i, limit, plan[0].writes) then 1 else 0
  }

  /** Passes that sent it and recorded the result: the tries that count. */
  function Tries(ns: seq<Notification>, plan: seq<Round>, limit: nat, i: nat): nat
    requires i < |ns|
    decreases |plan|
  {
    if plan == [] then 0
    else Tries(AfterRound(ns, plan[0], limit), plan[1..], limit, i)
         + if IsRecorded(ns + plan[0].arrivals, i, limit, plan[0].writes) then 1 else 0
  }

  predicate IsUnwritten(queue: seq<Notification>, i: nat, limit: nat, writes: nat)
    requires i < |queue|
  {
    IsSent(queue, i, limit, writes) && !IsRecorded(queue, i, limit, writes)
  }

  /** Passes that sent it and could not write the result. */
  function UnwrittenSends(ns: seq<Notification>, plan: seq<Round>, limit: nat, i: nat): nat
    requires i < |ns|
    decreases |plan|
  {
    if plan == [] then 0
    else UnwrittenSends(AfterRound(ns, plan[0], limit), plan[1..], limit, i)
         + if IsUnwritten(ns + plan[0].arrivals, i, limit, plan[0].writes) then 1 else 0
  }

  /** Whatever the sender does and whatever arrives, no more than three results are recorded. */
  lemma {:induction false} AtMostThreeTries(ns: seq<Notification>, plan: seq<Round>, limit: nat, i: nat)
    requires i < |ns|
    requires ns[i].status == Pending ==> ns[i].retries < 3
    ensures Tries(ns, plan, limit, i) <= if ns[i].status == Pending then 3 - ns[i].retries else 0
    decreases |plan|
  {
    if plan != [] {
      AtMostThreeTries(AfterRound(ns, plan[0], limit), plan[1..], limit, i);
    }
  }

  /** What the row says about its recorded tries: a failed one counts a retry, a successful one ends in sent. */
  function Charged(before: Notification, after: Notification): int {
    after.retries - before.retries + if before.status == Pending && after.status == Sent then 1 else 0
  }

  /**
   * The ledger of one notification in every run: its sends are the tries that its row shows plus the sends whose
   * result could not be written, and only the former are bounded.
   */
  lemma {:induction false} SendLedger(ns: seq<Notification>, plan: seq<Round>, limit: nat, i: nat)
    requires i < |ns|
    requires ns[i].status == Pending ==> ns[i].retries < 3
    ensures Sends(ns, plan, limit, i)
            == Charged(ns[i], Rounds(ns, plan, limit)[i]) + UnwrittenSends(ns, plan, limit, i)
    ensures Sends(ns, plan, limit, i) <= 3 + UnwrittenSends(ns, plan, limit, i)
    decreases |plan|
  {
    AtMostThreeTries(ns, plan, limit, i);
    SendsSplit(ns, plan, limit, i);
    TriesAreCharged(ns, plan, limit, i);
  }

  lemma {:induction false} SendsSplit(ns: seq<Notification>, plan: seq<Round>, limit: nat, i: nat)
    requires i < |ns|
    ensures Sends(ns, plan, limit, i) == Tries(ns, plan, limit, i) + UnwrittenSends(ns, plan, limit, i)
    decreases |plan|
  {
    if plan != [] {
      SendsSplit(AfterRound(ns, plan[0], limit), plan[1..], limit, i);
      hide AfterRound;
    }
  }

  lemma {:induction false} TriesAreCharged(ns: seq<Notification>, plan: seq<Round>, limit: nat, i: nat)
    requires i < |ns|
    ensures Tries(ns, plan, limit, i) == Charged(ns[i], Rounds(ns, plan, limit)[i])
    ensures ns[i].status != Pending ==> Rounds(ns, plan, limit)[i] == ns[i]
    decreases |plan|
  {
    if plan != [] {
      TriesAreCharged(AfterRound(ns, plan[0], limit), plan[1..], limit, i);
      hide PendingAmong;
    }
  }

  lemma {:induction false} PendingGrows(ns: seq<Notification>, i: nat, j: nat)
    requires i < j <= |ns| && ns[i].status == Pending
    ensures PendingAmong(ns, i) < PendingAmong(ns, j)
  {
    if i < j - 1 {
      PendingGrows(ns, i, j - 1);
    }
  }

  /** A pass sends at most one message whose result it cannot write. */
  lemma OneUnwrittenPerPass(queue: seq<Notification>, i: nat, j: nat, limit: nat, writes: nat)
    requires i < |queue| && j < |queue|
    requires IsUnwritten(queue, i, limit, writes) && IsUnwritten(queue, j, limit, writes)
    ensures i == j
  {
    if i < j {
      PendingGrows(queue, i, j);
    } else if j < i {
      PendingGrows(queue, j, i);
    }
  }

  /**
   * While no result can be written, the oldest pending notification is sent in every pass, for ever: after n
   * passes it was sent n times and its row is as it was.
   */
  lemma {:induction false} OldestIsSentForEver(ns: seq<Notification>, plan: seq<Round>, limit: nat, i: nat)
    requires limit > 0 && i < |ns| && ns[i].status == Pending && PendingAmong(ns, i) == 0
    requires forall r | r in plan :: r.writes == 0
    ensures Sends(ns, plan, limit, i) == |plan|
    ensures Rounds(ns, plan, limit)[i] == ns[i]
    decreases |plan|
  {
    if plan != [] {
      assert plan[0] in plan;
      var after := AfterRound(ns, plan[0], limit);
      assert after == ns + plan[0].arrivals;
      SamePending(ns, after, i);
      assert forall r | r in plan[1..] :: r in plan;
      OldestIsSentForEver(after, plan[1..], limit, i);
    }
  }

  lemma {:induction false} SamePending(ns: seq<Notification>, longer: seq<Notification>, i: nat)
    requires ns <= longer && i <= |ns|
    ensures PendingAmong(longer, i) == PendingAmong(ns, i)
  {
    if i > 0 {
      SamePending(ns, longer, i - 1);
    }
  }

  lemma {:induction false} WrittenSendsCount(ns: seq<Notification>, plan: seq<Round>, limit: nat, i: nat)
    requires i < |ns| && forall r | r in plan :: r.writes >= limit
    ensures UnwrittenSends(ns, plan, limit, i) == 0
    decreases |plan|
  {
    if plan != [] {
      assert plan[0] in plan;
      assert forall r | r in plan[1..] :: r in plan;
      WrittenSendsCount(AfterRound(ns, plan[0], limit), plan[1..], limit, i);
    }
  }

  lemma {:induction false} PendingAtMost(ns: seq<Notification>, i: nat)
    requires i <= |ns|
    ensures PendingAmong(ns, i) <= i
    ensures (forall j | 0 <= j < i :: ns[j].status == Pending) ==> PendingAmong(ns, i) == i
  {
    if i > 0 {
      PendingAtMost(ns, i - 1);
    }
  }

  /** `b` notifications that have failed `tries` times, and a later one whose result was never written. */
  function Waiting(b: nat, tries: nat): seq<Notification> {
    seq(b + 1, i requires 0 <= i <= b =>
      Notification(Key("", ""), "", CaseNotice(Low, 0), if i < b && tries >= MAX_TRIES then Failed else Pending,
                   if i < b then tries else 0))
  }

  /** A pass in which everything is refused and only `b` results can be written. */
  function Refused(b: nat): Round {
    Round([], {}, b)
  }

  lemma WaitingPass(b: nat, limit: nat, tries: nat)
    requires b < limit
    ensures IsSent(Waiting(b, tries), b, limit, b)
    ensures tries < MAX_TRIES ==> AfterRound(Waiting(b, tries), Refused(b), limit) == Waiting(b, tries + 1)
  {
    var ns := Waiting(b, tries);
    assert ns + [] == ns;
    forall i: nat | i <= b ensures PendingAmong(ns, i) <= i && (tries < MAX_TRIES ==> PendingAmong(ns, i) == i) {
      PendingAtMost(ns, i);
    }
    hide PendingAmong;
  }

  lemma {:induction false} WaitingSends(b: nat, limit: nat, tries: nat, plan: seq<Round>)
    requires b < limit && tries <= MAX_TRIES && |plan| == 4 - tries
    requires forall r | r in plan :: r == Refused(b)
    ensures Sends(Waiting(b, tries), plan, limit, b) >= 4 - tries
    decreases |plan|
  {
    hide Waiting, AfterRound, IsSent;
    WaitingPass(b, limit, tries);
    assert plan[0] in plan;
    assert Waiting(b, tries) + [] == Waiting(b, tries);
    WaitingHas(b, tries);
    if tries < MAX_TRIES {
      assert forall r | r in plan[1..] :: r in plan;
      WaitingSends(b, limit, tries + 1, plan[1..]);
    }
  }

  lemma WaitingHas(b: nat, tries: nat)
    ensures |Waiting(b, tries)| == b + 1 && Valid(Waiting(b, tries))
  {
  }

  /**
   * "Sent at most three times" holds in all runs in which each pass can write at least `b` results exactly when
   * that covers a whole pass: with one result less, a message can be sent a fourth time.
   */
  lemma AtMostThreeSendsExactly(limit: nat, b: nat)
    ensures (forall ns: seq<Notification>, plan: seq<Round>, i: nat |
               i < |ns| && Valid(ns) && (forall r | r in plan :: r.writes >= b) ::
               Sends(ns, plan, limit, i) <= 3)
            <==> b >= limit
  {
    if b >= limit {
      forall ns: seq<Notification>, plan: seq<Round>, i: nat |
        i < |ns| && Valid(ns) && (forall r | r in plan :: r.writes >= b)
        ensures Sends(ns, plan, limit, i) <= MAX_TRIES
      {
        WrittenSendsCount(ns, plan, limit, i);
        SendLedger(ns, plan, limit, i);
      }
    } else {
      var plan := [Refused(b), Refused(b), Refused(b), Refused(b)];
      WaitingHas(b, 0);
      WaitingSends(b, limit, 0, plan);
    }
  }

  // ---- Draining ----

  /** A later state: nothing became pending again, and what is pending has used up at least `used` tries. */
  ghost predicate Progress(before: seq<Notification>, after: seq<Notification>, limit: nat, used: nat) {
    && |before| <= |after|
    && Valid(after)
    && (forall i | 0 <= i < |before| && after[i].status == Pending :: before[i].status == Pending)
    && (forall i | 0 <= i < |before| && after[i].status == Pending && PendingAmong(before, i) < limit ::
          after[i].retries >= used)
  }

  lemma {:induction false} FewerPending(before: seq<Notification>, after: seq<Notification>, i: nat)
    requires i <= |before| <= |after|
    requires forall j | 0 <= j < |before| && after[j].status == Pending :: before[j].status == Pending
    ensures PendingAmong(after, i) <= PendingAmong(before, i)
  {
    if i > 0 {
      FewerPending(before, after, i - 1);
    }
  }

  /** A pass that can write everything it sends. */
  predicate Complete(r: Round, limit: nat) {
    r.writes >= limit
  }

  /** A complete pass tries everything pending at the front, so retries keep up with such passes; no pass loses any. */
  lemma OnePass(before: seq<Notification>, now: seq<Notification>, r: Round, limit: nat, used: nat)
    requires Progress(before, now, limit, used) && Valid(r.arrivals)
    ensures Progress(before, AfterRound(now, r, limit), limit, if Complete(r, limit) then used + 1 else used)
  {
    var queue := now + r.arrivals;
    var after := AfterRound(now, r, limit);
    if Complete(r, limit) {
      forall i | 0 <= i < |before| && after[i].status == Pending && PendingAmong(before, i) < limit
        ensures after[i].retries >= used + 1
      {
        FewerPending(before, queue, i);
      }
    }
  }

  lemma {:induction false} FrontIsDone(before: seq<Notification>, after: seq<Notification>, limit: nat, i: nat)
    requires Progress(before, after, limit, MAX_TRIES)
    requires i <= |before|
    ensures PendingAmong(after, i) <= if PendingAmong(before, i) > limit then PendingAmong(before, i) - limit else 0
  {
    if i > 0 {
      FrontIsDone(before, after, limit, i - 1);
    }
  }

  lemma OneGroupLess(pending: nat, limit: nat, m: nat)
    requires m > 0 && pending <= limit * m
    ensures (if pending > limit then pending - limit else 0) <= limit * (m - 1)
  {
    assert limit * m == limit * (m - 1) + limit && limit * (m - 1) >= 0;
  }

  function CompletePasses(plan: seq<Round>, limit: nat): nat {
    if plan == [] then 0 else CompletePasses(plan[1..], limit) + if Complete(plan[0], limit) then 1 else 0
  }

  /** The state of draining: `used` complete passes since `before`, in which m groups were pending. */
  lemma {:induction false} DrainsFrom(before: seq<Notification>, ns: seq<Notification>, plan: seq<Round>, limit: nat,
                                      m: nat, used: nat, size: nat)
    requires Valid(before) && ValidPlan(plan) && size <= |before|
    requires Progress(before, ns, limit, used) && used <= MAX_TRIES
    requires PendingAmong(before, size) <= limit * m
    requires CompletePasses(plan, limit) + used >= 3 * m
    ensures PendingAmong(Rounds(ns, plan, limit), size) == 0
    decreases |plan|, m
  {
    hide AfterRound, Valid, PendingAmong;
    if m == 0 {
      NothingPending(before, ns, limit, used, size);
      StaysDone(ns, plan, limit, size);
    } else if used == MAX_TRIES {
      FrontIsDone(before, ns, limit, size);
      OneGroupLess(PendingAmong(before, size), limit, m);
      StartAgain(before, ns, limit, used);
      DrainsFrom(ns, ns, plan, limit, m - 1, 0, size);
    } else {
      assert plan[0] in plan;
      OnePass(before, ns, plan[0], limit, used);
      assert forall r | r in plan[1..] :: r in plan;
      DrainsFrom(before, AfterRound(ns, plan[0], limit), plan[1..], limit, m,
                 if Complete(plan[0], limit) then used + 1 else used, size);
    }
  }

  lemma StartAgain(before: seq<Notification>, ns: seq<Notification>, limit: nat, used: nat)
    requires Progress(before, ns, limit, used)
    ensures Valid(ns) && Progress(ns, ns, limit, 0) && |ns| >= |before|
  {
  }

  lemma NothingPending(before: seq<Notification>, ns: seq<Notification>, limit: nat, used: nat, size: nat)
    requires Progress(before, ns, limit, used) && size <= |before| && PendingAmong(before, size) <= limit * 0
    ensures PendingAmong(ns, size) == 0 && size <= |ns|
  {
    FewerPending(before, ns, size);
  }

  /**
   * For every behaviour of the sender: if n notifications are pending and limit * m >= n, they are all sent or
   * failed after 3 * m complete passes, however many arrive later and however many other passes stop early.
   */
  lemma Drains(ns: seq<Notification>, plan: seq<Round>, limit: nat, m: nat, size: nat)
    requires Valid(ns) && ValidPlan(plan) && size <= |ns|
    requires PendingAmong(ns, size) <= limit * m
    requires CompletePasses(plan, limit) >= 3 * m
    ensures PendingAmong(Rounds(ns, plan, limit), size) == 0
  {
    DrainsFrom(ns, ns, plan, limit, m, 0, size);
  }

  lemma {:induction false} StaysDone(ns: seq<Notification>, plan: seq<Round>, limit: nat, size: nat)
    requires size <= |ns| && PendingAmong(ns, size) == 0
    ensures PendingAmong(Rounds(ns, plan, limit), size) == 0
    decreases |plan|
  {
    if plan != [] {
      var after := AfterRound(ns, plan[0], limit);
      FewerPending(ns, after, size);
      StaysDone(after, plan[1..], limit, size);
    }
  }
}
