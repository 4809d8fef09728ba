/** The reply use cases and the reply worker: each call is the run of machine steps that it stands for. */
module ReplyService {
  import opened Base
  import opened RawLog
  import opened Replies

  /** How far a sender gets after its claim, and what the platform answers. */
  datatype Fate =
    | DiesAfterClaim
    | DiesAfterDispatch(reached: bool, ok: bool)
    | Answers(reached: bool, ok: bool)

  /**
   * What one delivery meets: whether the source row is still there, whether it can reply, how far the sender
   * gets, and whether its mark can be written.
   */
  datatype Meets = Meets(sourceFound: bool, canReply: bool, fate: Fate, markUp: bool)

  /** A mark that cannot be written leaves the row as a crash does. */
  function MarkOrCrash(m: Meets, sender: nat, mark: Event): Event {
    if m.markUp then mark else Crash(sender)
  }

  /** The machine steps of one delivery of reply.requested. */
  function SendSteps(w: World, sender: nat, id: nat, m: Meets, isFinal: bool): seq<Event> {
    if !Has(w, id, Approved) || !m.sourceFound then []
    else if m.fate.DiesAfterClaim? then [Claim(sender, id), Crash(sender)]
    else if !m.canReply then [Claim(sender, id), MarkOrCrash(m, sender, MarkFailed(sender, true))]
    else
      [Claim(sender, id), Dispatch(sender, m.fate.reached, m.fate.ok)]
      + [LastStep(m, isFinal, sender)]
  }

  /** How a delivery ends after its dispatch. */
  function LastStep(m: Meets, isFinal: bool, sender: nat): Event
    requires !m.fate.DiesAfterClaim?
  {
    if m.fate.DiesAfterDispatch? then Crash(sender)
    else MarkOrCrash(m, sender, if m.fate.ok then MarkSent(sender) else MarkFailed(sender, isFinal))
  }

  /** The message is acknowledged: nothing to claim, nothing to retry, or sent and marked. */
  function Acknowledged(w: World, id: nat, m: Meets): bool {
    if !Has(w, id, Approved) then true
    else
      && m.sourceFound && !m.fate.DiesAfterClaim?
      && (m.canReply ==> m.fate.Answers? && m.fate.ok && m.markUp)
  }

  datatype ClaimResult = BadState | ClaimError | ClaimedFor(request: Request)

  function ReclaimSteps(ids: seq<nat>): seq<Event> {
    seq(|ids|, i requires 0 <= i < |ids| => Reclaim(ids[i]))
  }

  lemma PickedAre(replies: seq<Reply>, updated: map<nat, int>, cutoff: int, locked: set<nat>, limit: nat, ids: seq<nat>)
    requires Picks(ids, Untouched(replies, updated, cutoff, Sending) - locked, limit)
    ensures Distinct(ids)
    ensures forall j | 0 <= j < |ids| :: ids[j] < |replies| && replies[ids[j]].status == Sending
  {
    assert forall j | 0 <= j < |ids| :: ids[j] in ids;
  }

  lemma OneMoreReclaim(w: World, ids: seq<nat>, i: nat)
    requires i < |ids|
    ensures Exec(w, ReclaimSteps(ids[..i + 1])) == Next(Exec(w, ReclaimSteps(ids[..i])), Reclaim(ids[i]))
  {
    ExecSnoc(w, ReclaimSteps(ids[..i]), Reclaim(ids[i]));
    assert ReclaimSteps(ids[..i + 1]) == ReclaimSteps(ids[..i]) + [Reclaim(ids[i])];
  }

  lemma NothingYet(w: World)
    ensures Exec(w, ReclaimSteps([])) == w
  {
  }

  /** The runs of a single delivery, unfolded. */
  lemma StepByStep(w: World, trace: seq<Event>)
    ensures trace == [] ==> Exec(w, trace) == w
    ensures |trace| == 2 ==> Exec(w, trace) == Next(Next(w, trace[0]), trace[1])
    ensures |trace| == 3 ==> Exec(w, trace) == Next(Next(Next(w, trace[0]), trace[1]), trace[2])
  {
    hide Next;
    if |trace| == 2 {
      ExecSnoc(w, [trace[0]], trace[1]);
      assert trace == [trace[0]] + [trace[1]];
    } else if |trace| == 3 {
      ExecSnoc(w, [trace[0]], trace[1]);
      ExecSnoc(w, [trace[0], trace[1]], trace[2]);
      assert [trace[0]] + [trace[1]] == [trace[0], trace[1]];
      assert trace == [trace[0], trace[1]] + [trace[2]];
    }
    if |trace| >= 2 {
      assert [trace[0]][1..] == [];
    }
  }

  /**
   * One delivery, column by column: what it makes of the claimed row, and the one request that it lets the
   * platform see; without a claim nothing changes.
   */
  lemma SendOutcome(w: World, sender: nat, id: nat, m: Meets, isFinal: bool)
    requires sender !in w.senders
    ensures var end := Exec(w, SendSteps(w, sender, id, m, isFinal));
            if !(id < |w.replies| && w.replies[id].status == Approved && m.sourceFound)
            then end.replies == w.replies && end.platform == w.platform
            else
              var before := w.replies[id];
              var asks := m.canReply && !m.fate.DiesAfterClaim?;
              var marked := !m.fate.DiesAfterClaim? && (m.canReply ==> m.fate.Answers?) && m.markUp;
              && id < |end.replies| && end.replies == w.replies[id := end.replies[id]]
              && end.replies[id].status == (if !marked then Sending
                                            else if !m.canReply then ReplyStatus.Failed
                                            else if m.fate.ok then Sent
                                            else if isFinal then ReplyStatus.Failed else Approved)
              && end.replies[id].retries == before.retries + (if marked && !(m.canReply && m.fate.ok) then 1 else 0)
              && end.replies[id].content == before.content && end.replies[id].review == before.review
              && end.replies[id].approvedAt == before.approvedAt
              && end.platform.requests
                 == w.platform.requests + (if asks && (m.fate.reached || m.fate.ok)
                                           then [Request(before.review, id, before.content)] else [])
  {
    hide Exec, Next, MarkOrCrash;
    var steps := SendSteps(w, sender, id, m, isFinal);
    StepByStep(w, steps);
    if steps != [] {
      ClaimStep(w, sender, id);
      var claimed := Next(w, steps[0]);
      if |steps| == 2 {
        MarkStep(claimed, sender, id, m, true);
      } else {
        AskStep(claimed, sender, id, m.fate.reached, m.fate.ok);
        MarkStep(Next(claimed, steps[1]), sender, id, m, isFinal);
      }
    }
  }

  lemma ClaimStep(w: World, sender: nat, id: nat)
    requires id < |w.replies| && w.replies[id].status == Approved && sender !in w.senders
    ensures var after := Next(w, Claim(sender, id));
            && after.replies == w.replies[id := w.replies[id].(status := Sending)]
            && after.platform == w.platform && sender in after.senders && after.senders[sender] == Claimed(id)
  {
  }

  lemma AskStep(w: World, sender: nat, id: nat, reached: bool, ok: bool)
    requires id < |w.replies| && sender in w.senders && w.senders[sender] == Claimed(id)
    ensures var after := Next(w, Dispatch(sender, reached, ok));
            && after.replies == w.replies && sender in after.senders
            && after.senders[sender] == (if ok then Accepted(id) else Refused(id))
            && after.platform.requests
               == w.platform.requests
                  + if reached || ok then [Request(w.replies[id].review, id, w.replies[id].content)] else []
  {
    hide KnowsKey;
  }

  lemma MarkStep(w: World, sender: nat, id: nat, m: Meets, final: bool)
    requires id < |w.replies| && sender in w.senders && w.senders[sender].id == id
    ensures var after := Next(w, Crash(sender)); after.replies == w.replies && after.platform == w.platform
    ensures w.senders[sender].Accepted? ==>
              var after := Next(w, MarkOrCrash(m, sender, MarkSent(sender)));
              && after.replies == (if m.markUp then w.replies[id := w.replies[id].(status := Sent, error := None)]
                                   else w.replies)
              && after.platform == w.platform
    ensures !w.senders[sender].Accepted? ==>
              var after := Next(w, MarkOrCrash(m, sender, MarkFailed(sender, final)));
              && after.platform == w.platform
              && var r := w.replies[id];
                 after.replies == if m.markUp then w.replies[id := r.(status := if final then ReplyStatus.Failed else Approved,
                                                                      retries := r.retries + 1,
                                                                      error := Some("send failed"))]
                                  else w.replies
  {
  }

  class ReplyStore {
    var replies: seq<Reply>
    /** The remote side, reached by dispatch. */
    var platform: Platform
    /** Messages of reply.requested that the queue took over. */
    var queued: seq<nat>
    ghost var senders: map<nat, Sender>
    ghost var gated: set<nat>
    ghost var approvals: set<nat>

    constructor ()
      ensures Value() == Start && queued == []
    {
      replies, platform, queued := [], Platform([], [], map[]), [];
      senders, gated, approvals := map[], {}, {};
    }

    ghost function Value(): World
      reads this
    {
      World(replies, senders, platform, gated, approvals)
    }

    /** Write first, then publish: a failed publish leaves the approved row to the reconciler. */
    method CreateReply(ctx: Option<ReplyContext>, content: string, now: int, queueUp: bool) returns (res: CreateResult)
      modifies this`replies, this`gated, this`queued
      ensures Value() == Next(old(Value()), Create(ctx, content, now))
      ensures CheckReply(ctx, content) == if res.Created? then None else Some(res)
      ensures res == if ctx.None? then CaseNotFound
                     else if !ctx.value.canReply then NotAllowed
                     else if 0 < ctx.value.maxLength < |content| then TooLong
                     else Created(|old(replies)|, !ctx.value.requireApproval)
      ensures res.Created? ==> res == Created(|old(replies)|, !ctx.value.requireApproval)
      ensures queued == old(queued) + if res.Created? && res.enqueue && queueUp then [res.id] else []
    {
      if ctx.None? {
        return CaseNotFound;
      }
      var c := ctx.value;
      if !c.canReply {
        return NotAllowed;
      }
      if c.maxLength > 0 && |content| > c.maxLength {
        return TooLong;
      }
      var status, enqueue, approvedAt := Approved, true, Some(now);
      if c.requireApproval {
        status, enqueue, approvedAt := PendingApproval, false, None;
        gated := gated + {|replies|};
      }
      res := Created(|replies|, enqueue);
      replies := replies + [Reply(c.review, content, status, approvedAt, 0, None)];
      if enqueue {
        Enqueue(res.id, queueUp);
      }
    }

    method Enqueue(id: nat, queueUp: bool)
      modifies this`queued
      ensures queued == old(queued) + if queueUp then [id] else []
    {
      if queueUp {
        queued := queued + [id];
      }
    }

    method ApproveReply(id: nat, now: int, queueUp: bool) returns (ok: bool)
      modifies this`replies, this`approvals, this`queued
      ensures Value() == Next(old(Value()), Approve(id, now))
      ensures ok <==> id < |old(replies)| && old(replies)[id].status == PendingApproval
      ensures replies == if ok then old(replies)[id := old(replies)[id].(status := Approved, approvedAt := Some(now))]
                         else old(replies)
      ensures queued == old(queued) + if ok && queueUp then [id] else []
    {
      if id >= |replies| || replies[id].status != PendingApproval {
        return false;
      }
      replies := replies[id := replies[id].(status := Approved, approvedAt := Some(now))];
      approvals := approvals + {id};
      Enqueue(id, queueUp);
      return true;
    }

    method RejectReply(id: nat, reason: string) returns (ok: bool)
      modifies this`replies
      ensures Value() == Next(old(Value()), Reject(id, reason))
      ensures ok <==> id < |old(replies)| && old(replies)[id].status == PendingApproval
      ensures replies == if ok then old(replies)[id := old(replies)[id].(status := Rejected, error := Some(reason))]
                         else old(replies)
    {
      if id >= |replies| || replies[id].status != PendingApproval {
        return false;
      }
      replies := replies[id := replies[id].(status := Rejected, error := Some(reason))];
      return true;
    }

    /** The claim is rolled back when the review's source cannot be found. */
    method ClaimReplyForSend(id: nat, sourceFound: bool, ghost sender: nat) returns (res: ClaimResult)
      requires sender !in senders
      modifies this`replies, this`senders
      ensures Value() == if sourceFound then Next(old(Value()), Claim(sender, id)) else old(Value())
      ensures res.ClaimedFor? <==> id < |old(replies)| && old(replies)[id].status == Approved && sourceFound
      ensures replies == if res.ClaimedFor? then old(replies)[id := old(replies)[id].(status := Sending)]
                         else old(replies)
      ensures res == if !Has(old(Value()), id, Approved) then BadState
                     else if sourceFound then ClaimedFor(RequestOf(old(Value()), id)) else ClaimError
      ensures |replies| == |old(replies)| && (!res.ClaimedFor? ==> Value() == old(Value()))
      ensures res.ClaimedFor? ==>
                senders == old(senders)[sender := Claimed(id)] && res.request == RequestOf(Value(), id)
    {
      if id >= |replies| || replies[id].status != Approved {
        return BadState;
      }
      if !sourceFound {
        return ClaimError;
      }
      res := ClaimedFor(Request(replies[id].review, id, replies[id].content));
      replies := replies[id := replies[id].(status := Sending)];
      senders := senders[sender := Claimed(id)];
    }

    /** An error answer may come back although the platform took the request. */
    method DispatchReply(request: Request, reached: bool, ok: bool, ghost sender: nat) returns (accepted: bool)
      requires sender in senders && senders[sender] == Claimed(request.key)
      requires request.key < |replies| && request == RequestOf(Value(), request.key)
      modifies this`platform, this`senders
      ensures Value() == Next(old(Value()), Dispatch(sender, reached, ok))
      ensures platform.requests == old(platform).requests + if reached || ok then [request] else []
      ensures accepted == ok
      ensures senders == old(senders)[sender := if ok then Accepted(request.key) else Refused(request.key)]
    {
      if reached || ok {
        var known := exists e | e in platform.effects :: e.key == request.key;
        var effects := platform.effects;
        if !known {
          effects := effects + [request];
        }
        platform := Platform(platform.requests + [request], effects,
                             platform.slots[request.review := request]);
      }
      senders := senders[sender := if ok then Accepted(request.key) else Refused(request.key)];
      return ok;
    }

    /** Marks without looking at the present status. */
    method MarkReplySent(id: nat, ghost sender: nat)
      requires id < |replies| && sender in senders && senders[sender] == Accepted(id)
      modifies this`replies, this`senders
      ensures Value() == Next(old(Value()), MarkSent(sender))
      ensures replies == old(replies)[id := old(replies)[id].(status := Sent, error := None)]
      ensures senders == old(senders) - {sender}
    {
      replies := replies[id := replies[id].(status := Sent, error := None)];
      senders := senders - {sender};
    }

    method MarkReplyFailed(id: nat, isFinal: bool, ghost sender: nat)
      requires id < |replies| && sender in senders && senders[sender].id == id && !senders[sender].Accepted?
      modifies this`replies, this`senders
      ensures Value() == Next(old(Value()), MarkFailed(sender, isFinal))
      ensures var r := old(replies)[id];
              replies == old(replies)[id := r.(status := if isFinal then ReplyStatus.Failed else Approved,
                                               retries := r.retries + 1, error := Some("send failed"))]
      ensures senders == old(senders) - {sender}
    {
      var status := Approved;
      if isFinal {
        status := ReplyStatus.Failed;
      }
      var r := replies[id];
      replies := replies[id := r.(status := status, retries := r.retries + 1, error := Some("send failed"))];
      senders := senders - {sender};
    }

    /** A killed worker leaves the row as it is. */
    ghost method Die(sender: nat)
      modifies this`senders
      ensures Value() == Next(old(Value()), Crash(sender))
      ensures senders == old(senders) - {sender}
    {
      senders := senders - {sender};
    }

    /**
     * One delivery of reply.requested; `ok` acknowledges the message. A claimed reply ends failed when its source
     * cannot reply or the last delivery is refused, approved when an earlier one is refused, sent when the request
     * is accepted, and is left in sending when the sender dies or the mark is not written.
     */
    method SendReply(id: nat, m: Meets, isFinal: bool, ghost sender: nat) returns (ok: bool)
      requires sender !in senders
      modifies this`replies, this`senders, this`platform
      ensures Value() == Exec(old(Value()), SendSteps(old(Value()), sender, id, m, isFinal))
      ensures ok == Acknowledged(old(Value()), id, m)
      ensures var claims := id < |old(replies)| && old(replies)[id].status == Approved && m.sourceFound;
              var marked := !m.fate.DiesAfterClaim? && (m.canReply ==> m.fate.Answers?) && m.markUp;
              && (!claims ==> replies == old(replies) && platform == old(platform))
              && (claims ==>
                    && id < |replies| && replies == old(replies)[id := replies[id]]
                    && replies[id].status == (if !marked then Sending
                                              else if !m.canReply then ReplyStatus.Failed
                                              else if m.fate.ok then Sent
                                              else if isFinal then ReplyStatus.Failed else Approved))
      ensures ok <==> || id >= |old(replies)| || old(replies)[id].status != Approved
                      || (m.sourceFound && m.fate != DiesAfterClaim
                          && (m.canReply ==> m.fate.Answers? && m.fate.ok && m.markUp))
      ensures senders == old(senders)
    {
      hide Exec, Next;
      ghost var w := Value();
      StepByStep(w, SendSteps(w, sender, id, m, isFinal));
      SendOutcome(w, sender, id, m, isFinal);
      var res := ClaimReplyForSend(id, m.sourceFound, sender);
      if !res.ClaimedFor? {
        return res.BadState?;
      }
      if m.fate.DiesAfterClaim? {
        Die(sender);
        return false;
      }
      if !m.canReply {
        MarkFailedOrDie(id, true, m.markUp, sender);
        return true;
      }
      ok := AskAndMark(res.request, m, isFinal, sender);
    }

    /** What a delivery does after its claim, at a source that can reply. */
    method AskAndMark(request: Request, m: Meets, isFinal: bool, ghost sender: nat) returns (ok: bool)
      requires sender in senders && senders[sender] == Claimed(request.key) && !m.fate.DiesAfterClaim?
      requires request.key < |replies| && request == RequestOf(Value(), request.key)
      modifies this`replies, this`senders, this`platform
      ensures Value() == Next(Next(old(Value()), Dispatch(sender, m.fate.reached, m.fate.ok)),
                              LastStep(m, isFinal, sender))
      ensures ok == (m.fate.Answers? && m.fate.ok && m.markUp)
      ensures senders == old(senders) - {sender}
    {
      hide Next;
      var accepted := DispatchReply(request, m.fate.reached, m.fate.ok, sender);
      if m.fate.DiesAfterDispatch? {
        Die(sender);
        return false;
      }
      if !accepted {
        MarkFailedOrDie(request.key, isFinal, m.markUp, sender);
        return false;
      }
      if !m.markUp {
        Die(sender);
        return false;
      }
      MarkReplySent(request.key, sender);
      return true;
    }

    /** The error of MarkReplyFailed is ignored: the row then stays in sending until it is reclaimed. */
    method MarkFailedOrDie(id: nat, isFinal: bool, markUp: bool, ghost sender: nat)
      requires id < |replies| && sender in senders && senders[sender].id == id && !senders[sender].Accepted?
      modifies this`replies, this`senders
      ensures Value() == Next(old(Value()), if markUp then MarkFailed(sender, isFinal) else Crash(sender))
      ensures senders == old(senders) - {sender}
    {
      if markUp {
        MarkReplyFailed(id, isFinal, sender);
      } else {
        Die(sender);
      }
    }

    method ReclaimOne(id: nat) returns (back: bool)
      requires id < |replies| && replies[id].status == Sending
      modifies this`replies
      ensures Value() == Next(old(Value()), Reclaim(id))
      ensures replies == old(replies)[id := ReclaimedRow(old(replies)[id])]
      ensures back == (replies[id].status == Approved)
      ensures back == (old(replies)[id].retries < 4)
      ensures replies[id].status == (if back then Approved else ReplyStatus.Failed)
      ensures replies[id].retries == old(replies)[id].retries + 1
    {
      var r := replies[id];
      var status := if r.retries >= MAX_DELIVER then ReplyStatus.Failed else Approved;
      replies := replies[id := r.(status := status, retries := r.retries + 1,
                                  error := Some("reclaimed: send interrupted (worker died mid-send)"))];
      return status == Approved;
    }

    /**
     * Takes up to `limit` of the replies that have been in sending since before the cutoff and are not locked,
     * the longest untouched first: too many attempts fail a reply, the others go back to approved and are
     * returned. `updated` is the column updated_at.
     */
    method ReclaimStuckReplies(updated: map<nat, int>, cutoff: int, locked: set<nat>, limit: nat)
      returns (requeue: seq<nat>, ghost picked: seq<nat>)
      modifies this`replies
      ensures Picks(picked, Untouched(old(replies), updated, cutoff, Sending) - locked, limit)
      ensures EarliestFirst(updated, Untouched(old(replies), updated, cutoff, Sending) - locked, picked)
      ensures Value() == Exec(old(Value()), ReclaimSteps(picked))
      ensures forall id :: id in requeue <==> id in picked && old(replies)[id].retries < MAX_DELIVER
      ensures Distinct(requeue) && forall id | id in picked :: Has(Value(), id, Approved) <==> id in requeue
    {
      hide Exec, Next, ReclaimSteps, Untouched, Picks, EarliestFirst, ReclaimedRow;
      var ids := PickEarliest(updated, Untouched(replies, updated, cutoff, Sending) - locked, limit);
      picked := ids;
      NothingYet(Value());
      PickedAre(replies, updated, cutoff, locked, limit, ids);
      assert ids[..0] == [];
      requeue := [];
      ghost var w := Value();
      var i := 0;
      while i < |ids|
        invariant 0 <= i <= |ids|
        invariant Value() == Exec(w, ReclaimSteps(ids[..i])) && |replies| == |w.replies|
        invariant forall j | i <= j < |ids| :: ids[j] < |replies| && replies[ids[j]] == w.replies[ids[j]]
        invariant forall id :: id in requeue <==> id in ids[..i] && w.replies[id].retries < MAX_DELIVER
        invariant Distinct(requeue) && forall id | id in ids[..i] :: Has(Value(), id, Approved) <==> id in requeue
      {
        var id := ids[i];
        OneMoreReclaim(w, ids, i);
        assert id in ids && id !in ids[..i];
        var back := ReclaimOne(id);
        if back {
          requeue := requeue + [id];
        }
        i := i + 1;
      }
      assert ids[..i] == ids;
    }

    /** Up to `limit` of the approved replies that nobody has taken since the cutoff, the oldest first. */
    method StaleApprovedReplies(updated: map<nat, int>, cutoff: int, limit: nat) returns (out: seq<nat>)
      ensures Picks(out, Untouched(replies, updated, cutoff, Approved), limit)
      ensures EarliestFirst(updated, Untouched(replies, updated, cutoff, Approved), out)
    {
      out := PickEarliest(updated, Untouched(replies, updated, cutoff, Approved), limit);
    }

    /**
     * One pass of the reply reconciler; `touched` is updated_at before it and `updated` after the reclaim. Only
     * reclaiming changes rows; exactly what was put back and what was found idle is queued again, each where the
     * queue takes it.
     */
    method ReconcileReplies(touched: map<nat, int>, stuckBefore: int, locked: set<nat>, updated: map<nat, int>,
                            idleBefore: int, limit: nat, up: set<nat>)
      returns (ghost picked: seq<nat>, ghost stale: seq<nat>)
      modifies this`replies, this`queued
      ensures Picks(picked, Untouched(old(replies), touched, stuckBefore, Sending) - locked, limit)
      ensures Value() == Exec(old(Value()), ReclaimSteps(picked))
      ensures Picks(stale, Untouched(replies, updated, idleBefore, Approved), limit)
      ensures |old(queued)| <= |queued| && queued[..|old(queued)|] == old(queued)
      ensures forall id :: id in queued[|old(queued)|..] <==>
                id in up && (id in stale || (id in picked && Has(Value(), id, Approved)))
      ensures forall id | id in queued[|old(queued)|..] :: Has(Value(), id, Approved)
    {
      hide Exec, Next, ReclaimSteps, EarliestFirst;
      var reclaimed, out;
      reclaimed, picked := ReclaimStuckReplies(touched, stuckBefore, locked, limit);
      out := StaleApprovedReplies(updated, idleBefore, limit);
      stale := out;
      QueueAgain(reclaimed + out, up);
    }

    method QueueAgain(ids: seq<nat>, up: set<nat>)
      modifies this`queued
      ensures |old(queued)| <= |queued| && queued[..|old(queued)|] == old(queued)
      ensures forall id :: id in queued[|old(queued)|..] <==> id in ids && id in up
    {
      var i := 0;
      while i < |ids|
        invariant 0 <= i <= |ids|
        invariant |old(queued)| <= |queued| && queued[..|old(queued)|] == old(queued)
        invariant forall id :: id in queued[|old(queued)|..] <==> id in ids[..i] && id in up
      {
        ghost var added := queued[|old(queued)|..];
        assert ids[..i + 1] == ids[..i] + [ids[i]];
        Enqueue(ids[i], ids[i] in up);
        assert queued[|old(queued)|..] == added + if ids[i] in up then [ids[i]] else [];
        i := i + 1;
      }
      assert ids[..i] == ids;
    }
  }

  /** A scan under a limit finds rows of that status, last written before the cutoff, and all of them if they fit. */
  lemma UntouchedExactly(replies: seq<Reply>, updated: map<nat, int>, cutoff: int, status: ReplyStatus, id: nat)
    ensures id in Untouched(replies, updated, cutoff, status) <==>
              id < |replies| && replies[id].status == status && id in updated && updated[id] < cutoff
  {
  }

  /** The rows of a status that were last written before the cutoff. */
  function Untouched(replies: seq<Reply>, updated: map<nat, int>, cutoff: int, status: ReplyStatus): set<nat> {
    set id | id in updated && updated[id] < cutoff && id < |replies| && replies[id].status == status
  }
}
