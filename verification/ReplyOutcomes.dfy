/** What a final status is worth: when it lasts, and what the review then shows at an overwriting platform. */
module ReplyOutcomes {
  import opened Base
  import opened RawLog
  import opened Replies

  lemma OneMore(w: World, e: Event, rest: seq<Event>)
    ensures Exec(w, [e] + rest) == Exec(Next(w, e), rest)
  {
    hide Next;
    assert ([e] + rest)[0] == e && ([e] + rest)[1..] == rest;
  }

  lemma OneEvent(w: World, e: Event)
    ensures Exec(w, [e]) == Next(w, e)
  {
    hide Next;
    OneMore(w, e, []);
    assert [e] + [] == [e];
  }

  // ---- When a final status lasts ----

  /** Whoever still holds the reply had its request accepted, so it can only write `sent`. */
  ghost predicate OnlyAcceptedHold(w: World, id: nat) {
    forall s | s in w.senders && w.senders[s].id == id :: w.senders[s].Accepted?
  }

  lemma SentStep(w: World, e: Event, id: nat)
    requires Has(w, id, Sent) && OnlyAcceptedHold(w, id)
    ensures Has(Next(w, e), id, Sent) && OnlyAcceptedHold(Next(w, e), id)
  {
    hide Receive, CheckReply, NewReply;
  }

  lemma {:induction false} SentLasts(w: World, trace: seq<Event>, id: nat)
    requires Has(w, id, Sent) && OnlyAcceptedHold(w, id)
    ensures Has(Exec(w, trace), id, Sent)
    decreases |trace|
  {
    if trace != [] {
      SentStep(w, trace[0], id);
      hide Next, Has, OnlyAcceptedHold;
      SentLasts(Next(w, trace[0]), trace[1..], id);
    }
  }

  /**
   * A sent reply stays sent, whatever happens next, exactly when every live sender that still holds it had its
   * request accepted. One reclaimed sender that is alive and was refused, or has not dispatched yet, is enough
   * to make it claimable again.
   */
  lemma SentIsFinalExactly(w: World, id: nat)
    requires Has(w, id, Sent)
    ensures (forall trace :: Has(Exec(w, trace), id, Sent)) <==> OnlyAcceptedHold(w, id)
  {
    if OnlyAcceptedHold(w, id) {
      forall trace ensures Has(Exec(w, trace), id, Sent) {
        SentLasts(w, trace, id);
      }
    } else {
      var s :| s in w.senders && w.senders[s].id == id && !w.senders[s].Accepted?;
      OneEvent(w, MarkFailed(s, false));
      assert !Has(Exec(w, [MarkFailed(s, false)]), id, Sent);
    }
  }

  lemma FailedStep(w: World, e: Event, id: nat)
    requires Has(w, id, ReplyStatus.Failed) && NoLiveSender(w, id)
    ensures Has(Next(w, e), id, ReplyStatus.Failed) && NoLiveSender(Next(w, e), id)
  {
    hide Receive, CheckReply, NewReply;
  }

  lemma {:induction false} FailedLasts(w: World, trace: seq<Event>, id: nat)
    requires Has(w, id, ReplyStatus.Failed) && NoLiveSender(w, id)
    ensures Has(Exec(w, trace), id, ReplyStatus.Failed)
    decreases |trace|
  {
    if trace != [] {
      FailedStep(w, trace[0], id);
      hide Next, Has, NoLiveSender;
      FailedLasts(Next(w, trace[0]), trace[1..], id);
    }
  }

  /** A failed reply stays failed, whatever happens next, exactly when no live sender holds it. */
  lemma FailedIsFinalExactly(w: World, id: nat)
    requires Has(w, id, ReplyStatus.Failed)
    ensures (forall trace :: Has(Exec(w, trace), id, ReplyStatus.Failed)) <==> NoLiveSender(w, id)
  {
    if NoLiveSender(w, id) {
      forall trace ensures Has(Exec(w, trace), id, ReplyStatus.Failed) {
        FailedLasts(w, trace, id);
      }
    } else {
      var s :| s in w.senders && w.senders[s].id == id;
      var e := if w.senders[s].Accepted? then MarkSent(s) else MarkFailed(s, false);
      OneEvent(w, e);
      assert !Has(Exec(w, [e]), id, ReplyStatus.Failed);
    }
  }

  /** While a reply is failed and nobody holds it, it is neither claimed nor requested. */
  lemma {:induction false} FailedIsLeftAlone(w: World, trace: seq<Event>, id: nat)
    requires Has(w, id, ReplyStatus.Failed) && NoLiveSender(w, id)
    ensures var (before, end) := (w.platform.requests, Exec(w, trace).platform.requests);
            && ClaimCount(w, trace, id) == 0
            && before <= end && forall i | |before| <= i < |end| :: end[i].key != id
    decreases |trace|
  {
    if trace != [] {
      FailedStep(w, trace[0], id);
      FailedIsNotRequested(w, trace[0], id);
      hide Next, NoLiveSender;
      FailedIsLeftAlone(Next(w, trace[0]), trace[1..], id);
    }
  }

  lemma FailedIsNotRequested(w: World, e: Event, id: nat)
    requires NoLiveSender(w, id)
    ensures var (before, after) := (w.platform.requests, Next(w, e).platform.requests);
            before <= after && forall i | |before| <= i < |after| :: after[i].key != id
  {
    hide CheckReply, NewReply, KnowsKey;
  }

  /**
   * A reply that was refused on its last delivery, or whose source cannot reply, in a run in which only replies
   * of dead senders are reclaimed: it is failed for good, and never claimed or requested again, even if later
   * reclaims hit live senders.
   */
  lemma RefusedIsFailedForGood(trace: seq<Event>, s: nat, id: nat, rest: seq<Event>)
    requires DeadReclaims(Start, trace)
    requires var w := Exec(Start, trace); s in w.senders && w.senders[s].id == id && !w.senders[s].Accepted?
    ensures var (w, marked) := (Exec(Start, trace), Next(Exec(Start, trace), MarkFailed(s, true)));
            var end := Exec(marked, rest);
            && id < |end.replies| && end.replies[id].status == ReplyStatus.Failed
            && ClaimCount(marked, rest, id) == 0
            && w.platform.requests <= end.platform.requests
            && forall i | |w.platform.requests| <= i < |end.platform.requests| :: end.platform.requests[i].key != id
  {
    LedgerBalances(Start, trace, id);
    var w := Exec(Start, trace);
    hide Exec, ClaimCount, DeadReclaims, Receive;
    assert Has(w, w.senders[s].id, Sending);
    var marked := Next(w, MarkFailed(s, true));
    FailedLasts(marked, rest, id);
    FailedIsLeftAlone(marked, rest, id);
  }

  /** A rejected reply stays rejected in every run, late writers included: no sender ever held it. */
  lemma {:induction false} RejectedIsFinal(w: World, trace: seq<Event>, id: nat)
    requires GateInv(w) && Has(w, id, Rejected)
    ensures Has(Exec(w, trace), id, Rejected)
    decreases |trace|
  {
    if trace != [] {
      RejectedStep(w, trace[0], id);
      GateStep(w, trace[0]);
      hide Next, Has, GateInv;
      RejectedIsFinal(Next(w, trace[0]), trace[1..], id);
    }
  }

  lemma RejectedStep(w: World, e: Event, id: nat)
    requires GateInv(w) && Has(w, id, Rejected)
    ensures Has(Next(w, e), id, Rejected)
  {
    hide Receive, CheckReply, NewReply, RowGated;
    assert NoLiveSender(w, id) by {
      forall s | s in w.senders ensures w.senders[s].id != id {
        assert Released(w, w.senders[s].id);
      }
    }
    hide GateInv;
  }

  /** A review whose source takes replies of any length, without approval. */
  function Free(review: Key): Option<ReplyContext> {
    Some(ReplyContext(review, true, 0, false))
  }

  /** Sender 1 is reclaimed while alive, sender 2 sends the reply, then sender 1 reports its own failure. */
  function LateTrace(review: Key, text: string): seq<Event> {
    [Create(Free(review), text, 0), Claim(1, 0), Reclaim(0), Claim(2, 0), Dispatch(2, true, true), MarkSent(2),
     Dispatch(1, false, false), MarkFailed(1, false)]
  }

  const RECLAIMED := Some("reclaimed: send interrupted (worker died mid-send)")

  function LateWorld(review: Key, text: string, n: nat): World
    requires n <= 8
  {
    var request := Request(review, 0, text);
    var carried := Platform([request], [request], map[review := request]);
    var platform := if n <= 4 then Start.platform else carried;
    var row := match n
      case 1 => Reply(review, text, Approved, Some(0), 0, None)
      case 2 => Reply(review, text, Sending, Some(0), 0, None)
      case 3 => Reply(review, text, Approved, Some(0), 1, RECLAIMED)
      case 8 => Reply(review, text, Approved, Some(0), 2, Some("send failed"))
      case _ => Reply(review, text, if n <= 5 then Sending else Sent, Some(0), 1, if n <= 5 then RECLAIMED else None);
    var senders := match n
      case 2 => map[1 := Claimed(0)]
      case 3 => map[1 := Claimed(0)]
      case 4 => map[1 := Claimed(0), 2 := Claimed(0)]
      case 5 => map[1 := Claimed(0), 2 := Accepted(0)]
      case 6 => map[1 := Claimed(0)]
      case 7 => map[1 := Refused(0)]
      case _ => map[];
    World(if n == 0 then [] else [row], senders, platform, {}, {})
  }

  lemma LateStep(review: Key, text: string, n: nat)
    requires n < 8
    ensures Next(LateWorld(review, text, n), LateTrace(review, text)[n]) == LateWorld(review, text, n + 1)
  {
    if n < 4 {
      hide Receive, FailedRow, SentRow;
    } else if n < 6 {
      hide CheckReply, NewReply, ReclaimedRow, FailedRow;
      assert map[1 := Claimed(0), 2 := Accepted(0)] - {2} == map[1 := Claimed(0)];
    } else {
      assert map[1 := Refused(0)] - {1} == map[];
    }
  }

  lemma {:induction false} LateRun(review: Key, text: string, n: nat)
    requires n <= 8
    ensures Exec(Start, LateTrace(review, text)[..n]) == LateWorld(review, text, n)
  {
    hide Next, LateWorld;
    if n == 0 {
      LateStart(review, text);
    } else {
      LateRun(review, text, n - 1);
      LateStep(review, text, n - 1);
      var trace := LateTrace(review, text);
      ExecSnoc(Start, trace[..n - 1], trace[n - 1]);
      assert trace[..n] == trace[..n - 1] + [trace[n - 1]];
    }
  }

  lemma LateStart(review: Key, text: string)
    ensures LateWorld(review, text, 0) == Start
  {
  }

  /**
   * A run from the empty table after which a sent reply, carried by the platform, is approved again and will
   * be sent a second time. The last event is one that SentIsFinalExactly names.
   */
  lemma LateFailureUnsends(review: Key, text: string)
    ensures var trace := LateTrace(review, text);
            var (sent, end) := (Exec(Start, trace[..6]), Exec(Start, trace));
            && Has(sent, 0, Sent) && EffectOf(sent, 0) && !OnlyAcceptedHold(sent, 0)
            && Has(end, 0, Approved) && EffectOf(end, 0)
  {
    LateRun(review, text, 6);
    LateRun(review, text, 8);
    var trace := LateTrace(review, text);
    assert trace[..8] == trace;
    var sent := LateWorld(review, text, 6);
    assert sent.senders[1] == Claimed(0) && sent.platform.effects[0].key == 0;
    assert LateWorld(review, text, 8).platform.effects[0].key == 0;
    hide Exec;
  }

  // ---- An overwriting platform ----

  /** The newest request for a review. */
  function LastFor(requests: seq<Request>, review: Key): Option<Request> {
    if requests == [] then None
    else
      var n := |requests| - 1;
      if requests[n].review == review then Some(requests[n]) else LastFor(requests[..n], review)
  }

  ghost predicate SlotsAreLast(p: Platform) {
    forall review :: LastFor(p.requests, review) == if review in p.slots then Some(p.slots[review]) else None
  }

  ghost predicate RequestsAreReplies(w: World) {
    && (forall i | 0 <= i < |w.platform.requests| :: FromReply(w, w.platform.requests[i]))
    && (forall s | s in w.senders :: w.senders[s].id < |w.replies|)
  }

  lemma PlatformStep(w: World, e: Event)
    requires RequestsAreReplies(w)
    ensures Next(w, e).platform == w.platform
            || exists id: nat :: id < |w.replies| && Next(w, e).platform == Receive(w.platform, RequestOf(w, id))
  {
    hide Receive, CheckReply, NewReply, FromReply;
    if e.Dispatch? && e.sender in w.senders && w.senders[e.sender].Claimed? {
      var id := w.senders[e.sender].id;
      assert id < |w.replies|;
    }
  }

  lemma RequestsStep(w: World, e: Event)
    requires RequestsAreReplies(w)
    ensures RequestsAreReplies(Next(w, e))
  {
    hide Next;
    PlatformStep(w, e);
    TextStays(w, e);
    SendersStay(w, e);
    var (before, after) := (w.platform.requests, Next(w, e).platform.requests);
    forall i | 0 <= i < |after| ensures FromReply(Next(w, e), after[i]) {
      assert i < |before| ==> FromReply(w, before[i]) && after[i] == before[i];
    }
  }

  lemma SendersStay(w: World, e: Event)
    requires forall s | s in w.senders :: w.senders[s].id < |w.replies|
    ensures forall s | s in Next(w, e).senders :: Next(w, e).senders[s].id < |Next(w, e).replies|
  {
    hide Receive, CheckReply, NewReply, ApprovedRow, RejectedRow, SentRow, FailedRow, ReclaimedRow;
  }

  lemma SlotsStep(w: World, e: Event)
    requires RequestsAreReplies(w) && SlotsAreLast(w.platform)
    ensures SlotsAreLast(Next(w, e).platform)
  {
    hide Next, RequestsAreReplies;
    PlatformStep(w, e);
    var (before, after) := (w.platform, Next(w, e).platform);
    if after != before {
      assert after.requests[..|before.requests|] == before.requests;
    }
  }

  lemma {:induction false} SlotsRun(w: World, trace: seq<Event>)
    requires RequestsAreReplies(w) && SlotsAreLast(w.platform)
    ensures RequestsAreReplies(Exec(w, trace)) && SlotsAreLast(Exec(w, trace).platform)
    decreases |trace|
  {
    if trace != [] {
      RequestsStep(w, trace[0]);
      SlotsStep(w, trace[0]);
      hide Next, RequestsAreReplies, SlotsAreLast;
      SlotsRun(Next(w, trace[0]), trace[1..]);
    }
  }

  /** In every run, what a review shows at an overwriting platform is the last request that was made for it. */
  lemma SlotHoldsLastRequest(trace: seq<Event>, review: Key)
    ensures var p := Exec(Start, trace).platform;
            LastFor(p.requests, review) == if review in p.slots then Some(p.slots[review]) else None
  {
    hide Exec;
    SlotsFromStart(trace);
  }

  lemma SlotsFromStart(trace: seq<Event>)
    ensures RequestsAreReplies(Exec(Start, trace)) && SlotsAreLast(Exec(Start, trace).platform)
  {
    SlotsRun(Start, trace);
  }

  lemma {:induction false} LastForIs(requests: seq<Request>, review: Key) returns (i: nat)
    requires LastFor(requests, review).Some?
    ensures i < |requests| && LastFor(requests, review) == Some(requests[i]) && requests[i].review == review
    ensures forall j | i < j < |requests| :: requests[j].review != review
  {
    i := |requests| - 1;
    if requests[i].review != review {
      i := LastForIs(requests[..i], review);
    }
  }

  /** The reply was requested, and no other reply of its review was requested after its last request. */
  ghost predicate NoOtherAfter(requests: seq<Request>, review: Key, id: nat) {
    exists i :: 0 <= i < |requests| && requests[i].key == id
                && forall j | i < j < |requests| && requests[j].review == review :: requests[j].key == id
  }

  /**
   * At an overwriting platform a sent reply is what its review shows, content and all, exactly when no request
   * for another reply of the review came after its own last one.
   */
  lemma SentIsShownExactly(trace: seq<Event>, id: nat)
    requires Has(Exec(Start, trace), id, Sent)
    ensures var w := Exec(Start, trace);
            var review := w.replies[id].review;
            && review in w.platform.slots
            && (w.platform.slots[review] == RequestOf(w, id) <==> NoOtherAfter(w.platform.requests, review, id))
  {
    hide Exec, EffectOf;
    SentIsOnThePlatform(trace, id);
    SlotsFromStart(trace);
    var w := Exec(Start, trace);
    var (requests, review) := (w.platform.requests, w.replies[id].review);
    assert LastFor(requests, review).Some?;
    var last := LastForIs(requests, review);
    hide LastFor;
    assert FromReply(w, requests[last]);
    if NoOtherAfter(requests, review, id) {
      var i :| 0 <= i < |requests| && requests[i].key == id
               && forall j | i < j < |requests| && requests[j].review == review :: requests[j].key == id;
      assert FromReply(w, requests[i]);
    }
  }

  /** The usual case: the only reply ever requested for its review is shown once it is sent. */
  lemma OnlyReplyIsShown(trace: seq<Event>, id: nat)
    requires Has(Exec(Start, trace), id, Sent)
    requires var w := Exec(Start, trace);
             forall r | r in w.platform.requests && r.review == w.replies[id].review :: r.key == id
    ensures var w := Exec(Start, trace);
            && w.replies[id].review in w.platform.slots
            && w.platform.slots[w.replies[id].review] == RequestOf(w, id)
  {
    hide Exec, EffectOf;
    SentIsOnThePlatform(trace, id);
    SlotsFromStart(trace);
    var w := Exec(Start, trace);
    var last := LastForIs(w.platform.requests, w.replies[id].review);
    hide LastFor;
    assert w.platform.requests[last] in w.platform.requests;
  }

  /** Two replies to one review; the second one is sent first. */
  function OverwriteTrace(review: Key, first: string, second: string): seq<Event> {
    [Create(Free(review), first, 0), Create(Free(review), second, 0), Claim(1, 1), Dispatch(1, true, true), MarkSent(1),
     Claim(2, 0), Dispatch(2, true, true), MarkSent(2)]
  }

  function OverwriteWorld(review: Key, first: string, second: string, n: nat): World
    requires n <= 8
  {
    var row0 := Reply(review, first, if n < 6 then Approved else if n < 8 then Sending else Sent, Some(0), 0, None);
    var row1 := Reply(review, second, if n < 3 then Approved else if n < 5 then Sending else Sent, Some(0), 0, None);
    var (r0, r1) := (Request(review, 0, first), Request(review, 1, second));
    World(if n == 0 then [] else if n == 1 then [row0] else [row0, row1],
          match n
          case 3 => map[1 := Claimed(1)]
          case 4 => map[1 := Accepted(1)]
          case 6 => map[2 := Claimed(0)]
          case 7 => map[2 := Accepted(0)]
          case _ => map[],
          if n < 4 then Start.platform
          else if n < 7 then Platform([r1], [r1], map[review := r1])
          else Platform([r1, r0], [r1, r0], map[review := r0]),
          {}, {})
  }

  lemma OverwriteStep(review: Key, first: string, second: string, n: nat)
    requires n < 8
    ensures Next(OverwriteWorld(review, first, second, n), OverwriteTrace(review, first, second)[n])
            == OverwriteWorld(review, first, second, n + 1)
  {
    if n < 3 {
      hide Receive, SentRow;
    } else if n == 3 || n == 6 {
      hide CheckReply, NewReply, SentRow;
    } else {
      hide CheckReply, NewReply, Receive;
    }
  }

  lemma {:induction false} OverwriteRun(review: Key, first: string, second: string, n: nat)
    requires n <= 8
    ensures Exec(Start, OverwriteTrace(review, first, second)[..n]) == OverwriteWorld(review, first, second, n)
  {
    hide Next, OverwriteWorld;
    if n == 0 {
      OverwriteStart(review, first, second);
    } else {
      OverwriteRun(review, first, second, n - 1);
      OverwriteStep(review, first, second, n - 1);
      var trace := OverwriteTrace(review, first, second);
      ExecSnoc(Start, trace[..n - 1], trace[n - 1]);
      assert trace[..n] == trace[..n - 1] + [trace[n - 1]];
    }
  }

  lemma OverwriteStart(review: Key, first: string, second: string)
    ensures OverwriteWorld(review, first, second, 0) == Start
  {
  }

  /** Both replies are marked sent, and the review shows only the one requested last. */
  lemma SentReplyIsOverwritten(review: Key, first: string, second: string)
    requires first != second
    ensures var w := Exec(Start, OverwriteTrace(review, first, second));
            && Has(w, 0, Sent) && Has(w, 1, Sent) && w.replies[1].content == second
            && review in w.platform.slots && w.platform.slots[review].content == first
  {
    OverwriteRun(review, first, second, 8);
    var trace := OverwriteTrace(review, first, second);
    assert trace[..8] == trace;
    hide Exec;
  }
}
