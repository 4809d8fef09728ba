/** Replies: approval, claim, dispatch, mark and reclaim, with crashes and late writers. */
module Replies {
  import opened Base
  import opened RawLog

  datatype ReplyStatus = PendingApproval | Approved | Rejected | Sending | Sent | Failed

  /** The idempotency key of a reply is unique; it is the reply's index in the table. */
  datatype Reply = Reply(review: Key, content: string, status: ReplyStatus, approvedAt: Option<int>,
                         retries: nat, error: Option<string>)

  const MAX_DELIVER := 4

  // ---- The transactions, row by row ----

  /** What the case says about replying: None when the case or its source is gone. */
  datatype ReplyContext = ReplyContext(review: Key, canReply: bool, maxLength: nat, requireApproval: bool)

  datatype CreateResult = CaseNotFound | NotAllowed | TooLong | Created(id: nat, enqueue: bool)

  function CheckReply(ctx: Option<ReplyContext>, content: string): Option<CreateResult> {
    match ctx
    case None => Some(CaseNotFound)
    case Some(c) =>
      if !c.canReply then Some(NotAllowed)
      else if c.maxLength > 0 && |content| > c.maxLength then Some(TooLong)
      else None
  }

  function NewReply(c: ReplyContext, content: string, now: int): Reply {
    if c.requireApproval then Reply(c.review, content, PendingApproval, None, 0, None)
    else Reply(c.review, content, Approved, Some(now), 0, None)
  }

  function ApprovedRow(r: Reply, now: int): Reply {
    r.(status := Approved, approvedAt := Some(now))
  }

  function RejectedRow(r: Reply, reason: string): Reply {
    r.(status := Rejected, error := Some(reason))
  }

  function SentRow(r: Reply): Reply {
    r.(status := Sent, error := None)
  }

  function FailedRow(r: Reply, final: bool, reason: string): Reply {
    r.(status := if final then Failed else Approved, retries := r.retries + 1, error := Some(reason))
  }

  function ReclaimedRow(r: Reply): Reply {
    r.(status := if r.retries >= MAX_DELIVER then Failed else Approved, retries := r.retries + 1,
       error := Some("reclaimed: send interrupted (worker died mid-send)"))
  }

  // ---- The world around the table ----

  /** Where a sender stands between its claim and its mark. */
  datatype Sender = Claimed(id: nat) | Accepted(id: nat) | Refused(id: nat)

  datatype Request = Request(review: Key, key: nat, content: string)

  /** All requests that reached the platform; what they did to it; what a PUT slot per review holds. */
  datatype Platform = Platform(requests: seq<Request>, effects: seq<Request>, slots: map<Key, Request>)

  predicate KnowsKey(p: Platform, key: nat) {
    exists e | e in p.effects :: e.key == key
  }

  /** A receiver that ignores a known idempotency key, next to one that overwrites. */
  function Receive(p: Platform, r: Request): Platform {
    Platform(p.requests + [r], if KnowsKey(p, r.key) then p.effects else p.effects + [r], p.slots[r.review := r])
  }

  /** `gated` and `approvals` record history: replies created under approval, and approved ones. */
  datatype World = World(replies: seq<Reply>, senders: map<nat, Sender>, platform: Platform,
                         gated: set<nat>, approvals: set<nat>)

  const Start := World([], map[], Platform([], [], map[]), {}, {})

  datatype Event =
    | Create(ctx: Option<ReplyContext>, content: string, at: int)
    | Approve(id: nat, at: int)
    | Reject(id: nat, reason: string)
    | Claim(sender: nat, id: nat)
    | Dispatch(sender: nat, reached: bool, ok: bool)
    | MarkSent(sender: nat)
    | MarkFailed(sender: nat, final: bool)
    | Crash(sender: nat)
    | Reclaim(id: nat)

  predicate Has(w: World, id: nat, status: ReplyStatus) {
    id < |w.replies| && w.replies[id].status == status
  }

  function WithRow(w: World, id: nat, row: Reply): World
    requires id < |w.replies|
  {
    w.(replies := w.replies[id := row])
  }

  function RequestOf(w: World, id: nat): Request
    requires id < |w.replies|
  {
    Request(w.replies[id].review, id, w.replies[id].content)
  }

  /** The sender's request; an error answer may still have reached the platform. */
  function Dispatched(w: World, sender: nat, reached: bool, ok: bool): World
    requires sender in w.senders
  {
    var id := w.senders[sender].id;
    if id >= |w.replies| then w
    else
      var r := w.replies[id];
      w.(senders := w.senders[sender := if ok then Accepted(id) else Refused(id)],
         platform := if reached || ok then Receive(w.platform, RequestOf(w, id)) else w.platform)
  }

  function Next(w: World, e: Event): World {
    match e
    case Create(ctx, content, at) =>
      if CheckReply(ctx, content).Some? then w
      else w.(replies := w.replies + [NewReply(ctx.value, content, at)],
              gated := if ctx.value.requireApproval then w.gated + {|w.replies|} else w.gated)
    case Approve(id, at) =>
      if Has(w, id, PendingApproval)
      then WithRow(w, id, ApprovedRow(w.replies[id], at)).(approvals := w.approvals + {id}) else w
    case Reject(id, reason) =>
      if Has(w, id, PendingApproval) then WithRow(w, id, RejectedRow(w.replies[id], reason)) else w
    case Claim(s, id) =>
      if Has(w, id, Approved) && s !in w.senders
      then WithRow(w, id, w.replies[id].(status := Sending)).(senders := w.senders[s := Claimed(id)]) else w
    case Dispatch(s, reached, ok) =>
      if s in w.senders && w.senders[s].Claimed? then Dispatched(w, s, reached, ok) else w
    case MarkSent(s) =>
      if s in w.senders && w.senders[s].Accepted? && w.senders[s].id < |w.replies|
      then WithRow(w, w.senders[s].id, SentRow(w.replies[w.senders[s].id])).(senders := w.senders - {s}) else w
    case MarkFailed(s, final) =>
      // also the branch of a source that cannot reply, which marks without dispatching
      if s in w.senders && !w.senders[s].Accepted? && w.senders[s].id < |w.replies|
      then WithRow(w, w.senders[s].id, FailedRow(w.replies[w.senders[s].id], final, "send failed"))
           .(senders := w.senders - {s})
      else w
    case Crash(s) => w.(senders := w.senders - {s})
    case Reclaim(id) =>
      if Has(w, id, Sending) then WithRow(w, id, ReclaimedRow(w.replies[id])) else w
  }

  /**
   * What one step can do to a reply that exists: its review and content stay, its status moves only along the paths
   * below, and only failures and reclaims count a retry; a reclaimed reply with four retries fails.
   */
  lemma StatusMoves(w: World, e: Event, id: nat)
    requires id < |w.replies|
    ensures id < |Next(w, e).replies|
    ensures var (r, d) := (w.replies[id], Next(w, e).replies[id]);
            && d.review == r.review && d.content == r.content
            && (d == r
                || (&& e.Approve? && r.status == PendingApproval && d.status == Approved && d.approvedAt == Some(e.at)
                    && d.retries == r.retries)
                || (&& e.Reject? && r.status == PendingApproval && d.status == Rejected && d.error == Some(e.reason)
                    && d.retries == r.retries && d.approvedAt == r.approvedAt)
                || (e.Claim? && r.status == Approved && d == r.(status := Sending))
                || (&& e.MarkSent? && e.sender in w.senders && w.senders[e.sender] == Accepted(id)
                    && d == r.(status := Sent, error := None))
                || (&& e.MarkFailed? && e.sender in w.senders && w.senders[e.sender].id == id
                    && !w.senders[e.sender].Accepted? && d.retries == r.retries + 1 && d.approvedAt == r.approvedAt
                    && d.status == if e.final then Failed else Approved)
                || (&& e.Reclaim? && r.status == Sending && d.retries == r.retries + 1 && d.approvedAt == r.approvedAt
                    && d.status == if r.retries < 4 then Approved else Failed))
  {
    hide Receive, CheckReply, NewReply;
  }

  /**
   * A reply is created exactly when its case is there, the source can reply and the text is not longer than the
   * source allows, if it has a limit; it waits for approval exactly when the case's rule asks for it.
   */
  lemma CreateExactly(w: World, ctx: Option<ReplyContext>, content: string, at: int)
    ensures var after := Next(w, Create(ctx, content, at));
            if ctx.Some? && ctx.value.canReply && (ctx.value.maxLength == 0 || |content| <= ctx.value.maxLength) then
              var c := ctx.value;
              && after.replies == w.replies + [if c.requireApproval
                                               then Reply(c.review, content, PendingApproval, None, 0, None)
                                               else Reply(c.review, content, Approved, Some(at), 0, None)]
              && after.gated == (if c.requireApproval then w.gated + {|w.replies|} else w.gated)
            else after == w
  {
  }

  function Exec(w: World, trace: seq<Event>): World
    decreases |trace|
  {
    if trace == [] then w else Exec(Next(w, trace[0]), trace[1..])
  }

  lemma {:induction false} ExecSnoc(w: World, trace: seq<Event>, e: Event)
    ensures Exec(w, trace + [e]) == Next(Exec(w, trace), e)
    decreases |trace|
  {
    hide Next;
    if trace == [] {
      assert (trace + [e])[1..] == [];
    } else {
      assert (trace + [e])[1..] == trace[1..] + [e];
      ExecSnoc(Next(w, trace[0]), trace[1..], e);
    }
  }

  // ---- Approval gate: every run, late writers included ----

  predicate PastGate(s: ReplyStatus) {
    s != PendingApproval && s != Rejected
  }

  ghost predicate RowGated(w: World, id: nat)
    requires id < |w.replies|
  {
    var r := w.replies[id];
    && (r.approvedAt.Some? <==> PastGate(r.status))
    && (PastGate(r.status) && id in w.gated ==> id in w.approvals)
    && (!PastGate(r.status) ==> id !in w.approvals)
  }

  ghost predicate Released(w: World, id: nat) {
    id < |w.replies| && PastGate(w.replies[id].status)
  }

  ghost predicate GateInv(w: World) {
    && (forall id | 0 <= id < |w.replies| :: RowGated(w, id))
    && (forall s | s in w.senders :: Released(w, w.senders[s].id))
    && (forall i | 0 <= i < |w.platform.requests| :: Released(w, w.platform.requests[i].key))
    && (forall id | id in w.gated || id in w.approvals :: id < |w.replies|)
  }

  lemma ReleasedStays(w: World, e: Event)
    ensures forall id | Released(w, id) :: Released(Next(w, e), id)
  {
    hide Receive;
  }

  lemma RowsStayGated(w: World, e: Event)
    requires GateInv(w)
    ensures forall id | 0 <= id < |Next(w, e).replies| :: RowGated(Next(w, e), id)
  {
    hide Receive;
    forall id | 0 <= id < |Next(w, e).replies| ensures RowGated(Next(w, e), id) {
      assert id < |w.replies| ==> RowGated(w, id);
    }
  }

  /** Senders and requests only ever name replies behind the gate. */
  lemma OnlyReleasedLeave(w: World, e: Event)
    requires GateInv(w)
    ensures forall i | 0 <= i < |Next(w, e).platform.requests| :: Released(w, Next(w, e).platform.requests[i].key)
    ensures forall id | id in Next(w, e).gated || id in Next(w, e).approvals :: id < |Next(w, e).replies|
  {
    hide KnowsKey, RowGated;
  }

  lemma SendersHoldReleased(w: World, e: Event)
    requires GateInv(w)
    ensures forall s | s in Next(w, e).senders ::
              Released(w, Next(w, e).senders[s].id) || Released(Next(w, e), Next(w, e).senders[s].id)
  {
    hide Receive, RowGated, CheckReply, NewReply, ApprovedRow, RejectedRow, SentRow, FailedRow, ReclaimedRow;
  }

  lemma GateStep(w: World, e: Event)
    requires GateInv(w)
    ensures GateInv(Next(w, e))
  {
    ReleasedStays(w, e);
    RowsStayGated(w, e);
    OnlyReleasedLeave(w, e);
    SendersHoldReleased(w, e);
    hide Next, RowGated, Released;
  }

  lemma {:induction false} GateRun(w: World, trace: seq<Event>)
    requires GateInv(w)
    ensures GateInv(Exec(w, trace))
    decreases |trace|
  {
    if trace != [] {
      GateStep(w, trace[0]);
      hide GateInv, Next;
      GateRun(Next(w, trace[0]), trace[1..]);
    }
  }

  /**
   * In every run, even one in which reclaimed senders are alive and write late: a reply that reached the
   * platform is not rejected and, if it was created under approval, was approved; approved_at is set exactly
   * in the statuses behind the gate.
   */
  lemma NothingUnapprovedIsSent(trace: seq<Event>, id: nat)
    requires id < |Exec(Start, trace).replies|
    ensures var w := Exec(Start, trace);
            && (forall r | r in w.platform.requests && r.key == id ::
                  w.replies[id].status != Rejected && (id in w.gated ==> id in w.approvals))
            && (w.replies[id].approvedAt.Some? <==> w.replies[id].status in {Approved, Sending, Sent, Failed})
  {
    GateRun(Start, trace);
    var w := Exec(Start, trace);
    assert RowGated(w, id);
    hide Exec;
    forall r | r in w.platform.requests && r.key == id ensures Released(w, id) {
    }
  }

  // ---- Effects: at least once becomes exactly once ----

  ghost predicate FromReply(w: World, r: Request) {
    r.key < |w.replies| && r == RequestOf(w, r.key)
  }

  ghost predicate EffectOf(w: World, id: nat) {
    exists i :: 0 <= i < |w.platform.effects| && w.platform.effects[i].key == id
  }

  ghost predicate SlotFilled(w: World, review: Key) {
    && review in w.platform.slots
    && FromReply(w, w.platform.slots[review])
    && w.platform.slots[review].review == review
  }

  ghost predicate EffectInv(w: World) {
    && (forall i | 0 <= i < |w.platform.effects| :: FromReply(w, w.platform.effects[i]))
    && (forall i, j | 0 <= i < j < |w.platform.effects| :: w.platform.effects[i].key != w.platform.effects[j].key)
    && (forall review | review in w.platform.slots :: SlotFilled(w, review))
    && (forall s | s in w.senders && w.senders[s].Accepted? && w.senders[s].id < |w.replies| ::
          Effective(w, w.senders[s].id))
    && (forall id | 0 <= id < |w.replies| && w.replies[id].status == Sent :: Effective(w, id))
  }

  /** The platform carries the reply. */
  ghost predicate Effective(w: World, id: nat)
    requires id < |w.replies|
  {
    EffectOf(w, id) && SlotFilled(w, w.replies[id].review)
  }

  /** Rows keep review and content for ever. */
  ghost predicate SameText(before: World, after: World) {
    && |before.replies| <= |after.replies|
    && forall id | 0 <= id < |before.replies| ::
         after.replies[id].review == before.replies[id].review
         && after.replies[id].content == before.replies[id].content
  }

  lemma TextStays(w: World, e: Event)
    ensures SameText(w, Next(w, e))
  {
    hide KnowsKey;
  }

  lemma PlatformFrame(w: World, after: World)
    requires EffectInv(w) && SameText(w, after) && after.platform == w.platform
    requires forall s | s in after.senders && after.senders[s].Accepted? ::
               s in w.senders && w.senders[s] == after.senders[s]
    requires forall s | s in after.senders && after.senders[s].Accepted? :: after.senders[s].id < |w.replies|
    requires forall id | 0 <= id < |after.replies| && after.replies[id].status == Sent ::
               id < |w.replies| && Effective(w, id)
    ensures EffectInv(after)
  {
    forall id | 0 <= id < |w.replies| && Effective(w, id) ensures Effective(after, id) {
    }
    forall review | review in after.platform.slots ensures SlotFilled(after, review) {
      assert SlotFilled(w, review);
    }
    forall i | 0 <= i < |after.platform.effects| ensures FromReply(after, after.platform.effects[i]) {
      assert FromReply(w, w.platform.effects[i]);
    }
  }

  /** A platform that took a request of the reply carries it, and whatever it carried before. */
  lemma ReceiveCarries(w: World, after: World, id: nat)
    requires EffectInv(w) && id < |w.replies| && after.replies == w.replies
    requires after.platform == Receive(w.platform, RequestOf(w, id))
    ensures forall i | 0 <= i < |after.platform.effects| :: FromReply(after, after.platform.effects[i])
    ensures forall i, j | 0 <= i < j < |after.platform.effects| ::
              after.platform.effects[i].key != after.platform.effects[j].key
    ensures EffectOf(after, id) && forall x | EffectOf(w, x) :: EffectOf(after, x)
  {
    var before, effects := w.platform.effects, after.platform.effects;
    hide SlotFilled;
    if KnowsKey(w.platform, id) {
      var e :| e in before && e.key == id;
      var i :| 0 <= i < |before| && before[i] == e;
      assert effects[i].key == id;
    } else {
      assert effects[|before|].key == id;
      assert forall i | 0 <= i < |before| :: before[i] in before;
    }
    forall i | 0 <= i < |effects| ensures FromReply(after, effects[i]) {
      assert i < |before| ==> FromReply(w, before[i]);
    }
    forall x | EffectOf(w, x) ensures EffectOf(after, x) {
      var i :| 0 <= i < |before| && before[i].key == x;
      assert effects[i].key == x;
    }
  }

  lemma ReceiveFillsSlot(w: World, after: World, id: nat)
    requires EffectInv(w) && id < |w.replies| && after.replies == w.replies
    requires after.platform == Receive(w.platform, RequestOf(w, id))
    ensures forall v | v in after.platform.slots :: SlotFilled(after, v)
    ensures SlotFilled(after, w.replies[id].review)
    ensures forall v | SlotFilled(w, v) :: SlotFilled(after, v)
  {
    hide EffectOf, KnowsKey;
    forall v | v in after.platform.slots ensures SlotFilled(after, v) {
      assert v != w.replies[id].review ==> SlotFilled(w, v);
    }
  }

  lemma ReceiveStep(w: World, s: nat, reached: bool, ok: bool)
    requires EffectInv(w) && s in w.senders && forall t | t in w.senders :: w.senders[t].id < |w.replies|
    ensures EffectInv(Dispatched(w, s, reached, ok))
  {
    hide SlotFilled, EffectOf, FromReply, KnowsKey;
    var after := Dispatched(w, s, reached, ok);
    var id := w.senders[s].id;
    if reached || ok {
      ReceiveCarries(w, after, id);
      ReceiveFillsSlot(w, after, id);
    } else {
      PlatformFrame(w, after);
    }
  }

  lemma OnlyDispatchChangesPlatform(w: World, e: Event)
    requires !e.Dispatch?
    ensures Next(w, e).platform == w.platform
    ensures forall s | s in Next(w, e).senders && Next(w, e).senders[s].Accepted? ::
              s in w.senders && w.senders[s] == Next(w, e).senders[s]
  {
    hide Receive, CheckReply, NewReply, ApprovedRow, RejectedRow, SentRow, FailedRow, ReclaimedRow;
  }

  /** A reply is marked sent only by a sender whose request was accepted. */
  lemma OnlyAcceptedBecomeSent(w: World, e: Event)
    requires EffectInv(w) && !e.Dispatch?
    ensures forall id | 0 <= id < |Next(w, e).replies| && Next(w, e).replies[id].status == Sent ::
              id < |w.replies| && Effective(w, id)
  {
    hide Effective, SlotFilled, Receive, CheckReply, FromReply;
  }

  lemma EffectStep(w: World, e: Event)
    requires EffectInv(w) && GateInv(w)
    ensures EffectInv(Next(w, e))
  {
    forall s | s in w.senders ensures w.senders[s].id < |w.replies| {
      assert Released(w, w.senders[s].id);
    }
    hide GateInv;
    match e
    case Dispatch(s, reached, ok) =>
      hide EffectInv, Dispatched;
      if s in w.senders && w.senders[s].Claimed? {
        ReceiveStep(w, s, reached, ok);
      }
    case _ =>
      TextStays(w, e);
      OnlyDispatchChangesPlatform(w, e);
      OnlyAcceptedBecomeSent(w, e);
      hide Effective, SameText, Next, EffectInv;
      PlatformFrame(w, Next(w, e));
  }

  lemma {:induction false} EffectRun(w: World, trace: seq<Event>)
    requires EffectInv(w) && GateInv(w)
    ensures EffectInv(Exec(w, trace)) && SameText(w, Exec(w, trace))
    decreases |trace|
  {
    if trace != [] {
      GateStep(w, trace[0]);
      EffectStep(w, trace[0]);
      TextStays(w, trace[0]);
      hide GateInv, EffectInv, Next;
      EffectRun(Next(w, trace[0]), trace[1..]);
    }
  }

  /**
   * For any run with crashes, redelivery, reclaim and late writers: the platform carries at most one effect of
   * a reply, with the content it was created with, and exactly one once the reply is marked sent; the single
   * slot of its review then holds a reply of that review.
   */
  lemma ExactlyOneEffect(trace: seq<Event>, id: nat, i: nat, j: nat)
    requires id < |Exec(Start, trace).replies|
    requires i < |Exec(Start, trace).platform.effects| && j < |Exec(Start, trace).platform.effects|
    ensures var w := Exec(Start, trace);
            var effects := w.platform.effects;
            && (effects[i].key == id ==> effects[i].content == w.replies[id].content)
            && (effects[i].key == id && effects[j].key == id ==> i == j)
  {
    GateInvStart();
    EffectRun(Start, trace);
    hide Exec;
    assert FromReply(Exec(Start, trace), Exec(Start, trace).platform.effects[i]);
  }

  lemma SentIsOnThePlatform(trace: seq<Event>, id: nat)
    requires Has(Exec(Start, trace), id, Sent)
    ensures EffectOf(Exec(Start, trace), id)
    ensures SlotFilled(Exec(Start, trace), Exec(Start, trace).replies[id].review)
  {
    GateInvStart();
    EffectRun(Start, trace);
    hide Exec;
    assert Effective(Exec(Start, trace), id);
  }

  /** The content of a reply at the end of a run is the content it was created with. */
  lemma ContentIsTheOneCreated(trace: seq<Event>, ctx: ReplyContext, content: string, at: int, rest: seq<Event>)
    requires CheckReply(Some(ctx), content).None?
    ensures var created := Next(Exec(Start, trace), Create(Some(ctx), content, at));
            var id := |Exec(Start, trace).replies|;
            && id < |Exec(created, rest).replies|
            && Exec(created, rest).replies[id].content == content
            && Exec(created, rest).replies[id].review == ctx.review
  {
    GateInvStart();
    EffectRun(Start, trace);
    GateRun(Start, trace);
    var w := Exec(Start, trace);
    var created := Next(w, Create(Some(ctx), content, at));
    GateStep(w, Create(Some(ctx), content, at));
    EffectStep(w, Create(Some(ctx), content, at));
    EffectRun(created, rest);
    hide Exec, GateInv, EffectInv;
  }

  lemma GateInvStart()
    ensures GateInv(Start) && EffectInv(Start)
  {
  }

  // ---- Exclusivity and the ledger: reclaim only hits dead senders ----

  ghost predicate NoLiveSender(w: World, id: nat) {
    forall s | s in w.senders :: w.senders[s].id != id
  }

  /** At most one live sender holds a reply, and the reply is then being sent. */
  ghost predicate Exclusive(w: World) {
    && (forall s | s in w.senders :: Has(w, w.senders[s].id, Sending))
    && (forall s, t | s in w.senders && t in w.senders && s != t :: w.senders[s].id != w.senders[t].id)
  }

  /** Every reclaim of the run hits a reply whose sender is dead. */
  ghost predicate DeadReclaims(w: World, trace: seq<Event>)
    decreases |trace|
  {
    trace != [] ==>
      (trace[0].Reclaim? ==> NoLiveSender(w, trace[0].id)) && DeadReclaims(Next(w, trace[0]), trace[1..])
  }

  lemma ExclusiveStep(w: World, e: Event)
    requires Exclusive(w)
    requires e.Reclaim? ==> NoLiveSender(w, e.id)
    ensures Exclusive(Next(w, e))
  {
    hide Receive, CheckReply, NewReply, ApprovedRow, RejectedRow, SentRow, FailedRow, ReclaimedRow;
  }

  predicate Final(s: ReplyStatus) {
    s in {Sent, Failed, Rejected}
  }

  function Retries(w: World, id: nat): nat {
    if id < |w.replies| then w.replies[id].retries else 0
  }

  /** Claims accounted for by the row: given up ones, the one in flight, the one that went through. */
  function Balance(w: World, id: nat): nat {
    Retries(w, id) + if Has(w, id, Sending) || Has(w, id, Sent) then 1 else 0
  }

  predicate Claims(w: World, e: Event, id: nat) {
    e.Claim? && e.id == id && Has(w, id, Approved) && e.sender !in w.senders
  }

  function ClaimCount(w: World, trace: seq<Event>, id: nat): nat
    decreases |trace|
  {
    if trace == [] then 0
    else ClaimCount(Next(w, trace[0]), trace[1..], id) + if Claims(w, trace[0], id) then 1 else 0
  }

  lemma BalanceStep(w: World, e: Event, id: nat)
    requires Exclusive(w)
    ensures Balance(Next(w, e), id) == Balance(w, id) + if Claims(w, e, id) then 1 else 0
  {
    hide Receive, CheckReply;
    if id < |w.replies| && !e.Claim? {
      StatusMoves(w, e, id);
      hide Next;
    }
  }

  lemma FinalStep(w: World, e: Event, id: nat)
    requires Exclusive(w)
    ensures id < |w.replies| && Final(w.replies[id].status) ==>
              id < |Next(w, e).replies| && Next(w, e).replies[id] == w.replies[id]
  {
    hide Receive, CheckReply, NewReply, ApprovedRow, RejectedRow, SentRow, FailedRow, ReclaimedRow;
  }

  /**
   * While reclaims only hit dead senders: at most one live sender holds a reply, committed claims are retries
   * plus the one in flight or sent, and sent, failed and rejected are final.
   */
  lemma {:induction false} LedgerBalances(w: World, trace: seq<Event>, id: nat)
    requires Exclusive(w) && DeadReclaims(w, trace)
    ensures Exclusive(Exec(w, trace))
    ensures Balance(Exec(w, trace), id) == Balance(w, id) + ClaimCount(w, trace, id)
    ensures id < |w.replies| && Final(w.replies[id].status) ==>
              id < |Exec(w, trace).replies| && Exec(w, trace).replies[id] == w.replies[id]
    decreases |trace|
  {
    if trace != [] {
      ExclusiveStep(w, trace[0]);
      BalanceStep(w, trace[0], id);
      FinalStep(w, trace[0], id);
      hide Exclusive, Next, Balance, NoLiveSender, Claims;
      LedgerBalances(Next(w, trace[0]), trace[1..], id);
    }
  }

  /** The same from the empty table: the number of claims that were ever committed for a reply. */
  lemma ClaimsAreAccountedFor(trace: seq<Event>, id: nat)
    requires DeadReclaims(Start, trace)
    ensures var w := Exec(Start, trace);
            ClaimCount(Start, trace, id)
            == Retries(w, id) + (if Has(w, id, Sending) then 1 else 0) + (if Has(w, id, Sent) then 1 else 0)
  {
    LedgerBalances(Start, trace, id);
  }

  /** Reclaims that put the reply back to approved. */
  predicate PutsBack(w: World, e: Event, id: nat) {
    e == Reclaim(id) && Has(w, id, Sending) && w.replies[id].retries < MAX_DELIVER
  }

  function PutBackCount(w: World, trace: seq<Event>, id: nat): nat
    decreases |trace|
  {
    if trace == [] then 0
    else PutBackCount(Next(w, trace[0]), trace[1..], id) + if PutsBack(w, trace[0], id) then 1 else 0
  }

  lemma RetriesGrow(w: World, e: Event, id: nat)
    ensures Retries(Next(w, e), id) >= Retries(w, id) + if PutsBack(w, e, id) then 1 else 0
  {
    hide Receive;
  }

  /** In any run a reply is put back by the reclaimer at most MaxDeliver times. */
  lemma {:induction false} ReclaimIsBounded(w: World, trace: seq<Event>, id: nat)
    ensures PutBackCount(w, trace, id) <= if Retries(w, id) < 4 then 4 - Retries(w, id) else 0
    decreases |trace|
  {
    if trace != [] {
      RetriesGrow(w, trace[0], id);
      assert PutsBack(w, trace[0], id) ==> Retries(w, id) < MAX_DELIVER;
      hide Next, PutsBack, Retries;
      ReclaimIsBounded(Next(w, trace[0]), trace[1..], id);
    }
  }
}
