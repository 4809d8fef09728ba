/** The google adapter's Fetch: offset pages over a list that grows and is edited between the page reads. */
module GoogleAdapter {
  import opened Base
  import opened Remote

  const MAX_PAGES := 20

  /** Entries beyond this position are cut off. */
  const MAX_ENTRIES: nat := MAX_PAGES * PAGE_SIZE

  datatype FetchResult = FetchResult(reviews: seq<Item>, cursor: int, pageCapHit: bool)

  /** What happens at the service before each page read; edit times keep rising. */
  predicate DriftRises(clock: int, drift: seq<seq<Change>>)
    decreases |drift|
  {
    drift != [] ==> Rising(clock, drift[0]) && DriftRises(ClockAfter(clock, drift[0]), drift[1..])
  }

  /** Everything wanted up to the cursor was returned in its present version. */
  ghost predicate Complete(stored: seq<Item>, since: int, cursor: int, maxRating: nat, out: seq<Item>) {
    forall x | x in stored && Wanted(x, since, cursor, maxRating) :: x in out
  }

  lemma {:induction false} PlaceLength(sorted: seq<Item>, x: Item)
    ensures |Place(sorted, x)| == |sorted| + 1
  {
    if sorted != [] && x.time <= sorted[0].time {
      PlaceLength(sorted[1..], x);
    }
  }

  lemma {:induction false} ListingLength(stored: seq<Item>)
    ensures |Listing(stored)| == |stored|
  {
    if stored != [] {
      ListingLength(stored[..|stored| - 1]);
      PlaceLength(Listing(stored[..|stored| - 1]), stored[|stored| - 1]);
    }
  }

  lemma {:induction false} NeverShrinks(stored: seq<Item>, changes: seq<Change>)
    ensures |AllChanged(stored, changes)| >= |stored|
  {
    if changes != [] {
      NeverShrinks(stored, changes[..|changes| - 1]);
    }
  }

  /** Looking through the whole listing is looking through everything stored. */
  lemma SeenAllIsComplete(stored: seq<Item>, since: int, cursor: int, maxRating: nat, out: seq<Item>)
    requires DistinctTimes(stored)
    requires SeenUpTo(Listing(stored), |Listing(stored)|, since, cursor, maxRating, out)
    ensures Complete(stored, since, cursor, maxRating, out)
  {
    ListingSorted(stored);
    forall x | x in stored && Wanted(x, since, cursor, maxRating) ensures x in out {
      assert x in Elements(stored);
      assert x in Elements(Listing(stored));
      var p :| 0 <= p < |Listing(stored)| && Listing(stored)[p] == x;
    }
  }

  lemma ViewFacts(stored: seq<Item>, clock: int)
    requires Clocked(stored, clock)
    ensures DistinctTimes(stored) && NewestFirst(Listing(stored))
    ensures |Listing(stored)| == |stored|
    ensures forall p | 0 <= p < |Listing(stored)| :: Listing(stored)[p].time <= clock
  {
    ListingSorted(stored);
    ListingLength(stored);
    forall p | 0 <= p < |Listing(stored)| ensures Listing(stored)[p].time <= clock {
      assert Listing(stored)[p] in Elements(stored);
    }
  }

  // ---- What is taken from a listing, entry by entry ----

  /** The first position from `lo` on that holds a readable entry not newer than `since`, or the end. */
  function Reach(view: seq<Item>, since: int, lo: nat): (r: nat)
    requires lo <= |view|
    ensures lo <= r <= |view|
    decreases |view| - lo
  {
    if lo == |view| || (view[lo].readable && view[lo].time <= since) then lo else Reach(view, since, lo + 1)
  }

  function Taken(view: seq<Item>, lo: nat, hi: nat, maxRating: nat): seq<Item>
    requires lo <= hi <= |view|
  {
    if lo == hi then []
    else Taken(view, lo, hi - 1, maxRating) + if Matches(view[hi - 1], maxRating) then [view[hi - 1]] else []
  }

  function NewestOf(view: seq<Item>, lo: nat, hi: nat, newest: int): int
    requires lo <= hi <= |view|
  {
    if lo == hi then newest
    else
      var before := NewestOf(view, lo, hi - 1, newest);
      if view[hi - 1].readable && view[hi - 1].time > before then view[hi - 1].time else before
  }

  /** Exactly what one page contributes. */
  ghost predicate PageTaken(view: seq<Item>, lo: nat, hi: nat, since: int, maxRating: nat, newest0: int,
                            out0: seq<Item>, newest: int, out: seq<Item>, stopped: bool)
    requires lo <= hi <= |view|
  {
    var end := Min(Reach(view, since, lo), hi);
    && (stopped <==> Reach(view, since, lo) < hi)
    && newest == NewestOf(view, lo, end, newest0)
    && out == out0 + Taken(view, lo, end, maxRating)
  }

  lemma {:induction false} ReachIs(view: seq<Item>, since: int, lo: nat)
    requires lo <= |view|
    ensures forall p | lo <= p < Reach(view, since, lo) :: view[p].readable ==> view[p].time > since
    ensures var r := Reach(view, since, lo); r < |view| ==> view[r].readable && view[r].time <= since
    decreases |view| - lo
  {
    if lo < |view| && !(view[lo].readable && view[lo].time <= since) {
      ReachIs(view, since, lo + 1);
    }
  }

  lemma {:induction false} TakenIs(view: seq<Item>, lo: nat, hi: nat, maxRating: nat, x: Item)
    requires lo <= hi <= |view|
    ensures x in Taken(view, lo, hi, maxRating)
            <==> x in view[lo..hi] && x.readable && x.star.Some? && x.star.value <= maxRating
  {
    if lo < hi {
      TakenIs(view, lo, hi - 1, maxRating, x);
      assert view[lo..hi] == view[lo..hi - 1] + [view[hi - 1]];
    }
  }

  lemma {:induction false} NewestIs(view: seq<Item>, lo: nat, hi: nat, newest: int)
    requires lo <= hi <= |view|
    ensures NewestOf(view, lo, hi, newest) >= newest
    ensures forall p | lo <= p < hi && view[p].readable :: view[p].time <= NewestOf(view, lo, hi, newest)
    ensures var n := NewestOf(view, lo, hi, newest);
            n == newest || exists p :: lo <= p < hi && view[p].readable && view[p].time == n
  {
    if lo < hi {
      NewestIs(view, lo, hi - 1, newest);
    }
  }

  /** What a page contributes was on it and is wanted. */
  lemma PageIsGenuine(view: seq<Item>, lo: nat, hi: nat, since: int, maxRating: nat, newest0: int, out0: seq<Item>,
                      newest: int, out: seq<Item>, stopped: bool)
    requires lo <= hi <= |view| && since <= newest0
    requires forall x | x in out0 :: Wanted(x, since, newest0, maxRating)
    requires PageTaken(view, lo, hi, since, maxRating, newest0, out0, newest, out, stopped)
    ensures newest0 <= newest
    ensures newest == newest0 || exists x :: x in view[lo..hi] && x.time == newest
    ensures forall x | x in out :: Wanted(x, since, newest, maxRating) && (x in out0 || x in view[lo..hi])
  {
    var end := Min(Reach(view, since, lo), hi);
    ReachIs(view, since, lo);
    NewestIs(view, lo, end, newest0);
    if newest != newest0 {
      var q :| lo <= q < end && view[q].readable && view[q].time == newest;
      assert view[lo..hi][q - lo] == view[q];
    }
    forall x | x in out && x !in out0 ensures x in view[lo..hi] && Wanted(x, since, newest, maxRating) {
      TakenIs(view, lo, end, maxRating, x);
      var p :| 0 <= p < end - lo && view[lo..end][p] == x;
      assert x == view[lo + p] && view[lo..hi][p] == x;
    }
  }

  /** Because the page is sorted, a newer cursor never covers an entry above it that was not looked at. */
  lemma PageIsSeen(view: seq<Item>, lo: nat, hi: nat, since: int, maxRating: nat, newest0: int, out0: seq<Item>,
                   newest: int, out: seq<Item>, stopped: bool)
    requires NewestFirst(view) && lo <= hi <= |view|
    requires SeenUpTo(view, lo, since, newest0, maxRating, out0)
    requires PageTaken(view, lo, hi, since, maxRating, newest0, out0, newest, out, stopped)
    ensures SeenUpTo(view, if stopped then |view| else hi, since, newest, maxRating, out)
  {
    var end := Min(Reach(view, since, lo), hi);
    ReachIs(view, since, lo);
    NewestIs(view, lo, end, newest0);
    hide Reach, NewestOf;
    var q := lo;
    if newest != newest0 {
      q :| lo <= q < end && view[q].readable && view[q].time == newest;
    }
    forall p | 0 <= p < (if stopped then |view| else hi) && Wanted(view[p], since, newest, maxRating)
      ensures view[p] in out
    {
      if p < lo {
        SeenBefore(view, lo, since, newest0, newest, maxRating, out0, q, p);
      } else if p < end {
        TakenIs(view, lo, end, maxRating, view[p]);
        assert view[lo..end][p - lo] == view[p];
      }
    }
  }

  /** The page in the entries' own fields: what follows an old entry is older still. */
  lemma PageInFields(view: seq<Item>, lo: nat, page: seq<Item>, since: int, maxRating: nat, newest0: int,
                     out0: seq<Item>, newest: int, out: seq<Item>, stopped: bool)
    requires NewestFirst(view) && lo + |page| <= |view| && page == view[lo..lo + |page|]
    requires PageTaken(view, lo, lo + |page|, since, maxRating, newest0, out0, newest, out, stopped)
    ensures forall x | x in out && x !in out0 ::
              x in page && x.readable && x.star.Some? && x.star.value <= maxRating && x.time > since
    ensures forall i, s | 0 <= i < |page| && page[i].readable && page[i].star == Some(s) && s <= maxRating
                          && page[i].time > since :: page[i] in out
    ensures stopped <==> exists i :: 0 <= i < |page| && page[i].readable && page[i].time <= since
  {
    var end := Min(Reach(view, since, lo), lo + |page|);
    ReachIs(view, since, lo);
    assert forall i | 0 <= i < |page| :: page[i] == view[lo + i];
    if stopped {
      assert page[end - lo] == view[end];
    }
    hide Reach, NewestOf;
    forall x | x in out && x !in out0
      ensures x in page && x.readable && x.star.Some? && x.star.value <= maxRating && x.time > since
    {
      TakenIs(view, lo, end, maxRating, x);
      var p :| 0 <= p < end - lo && view[lo..end][p] == x;
      assert x == page[p];
    }
    forall i, s | 0 <= i < |page| && page[i].readable && page[i].star == Some(s) && s <= maxRating && page[i].time > since
      ensures page[i] in out
    {
      if lo + i < end {
        TakenIs(view, lo, end, maxRating, page[i]);
        assert view[lo..end][i] == page[i];
      }
    }
  }

  lemma SeenBefore(view: seq<Item>, lo: nat, since: int, newest0: int, newest: int, maxRating: nat, out0: seq<Item>,
                   q: nat, p: nat)
    requires NewestFirst(view) && p < lo <= |view|
    requires SeenUpTo(view, lo, since, newest0, maxRating, out0) && newest0 <= newest
    requires newest == newest0 || (lo <= q < |view| && view[q].time == newest)
    requires Wanted(view[p], since, newest, maxRating)
    ensures view[p] in out0
  {
  }

  /** One page: go down from the first entry until one is not newer than `since`. */
  method TakePage(ghost view: seq<Item>, ghost offset: nat, page: seq<Item>, since: int, newest0: int, maxRating: nat,
                  out0: seq<Item>)
    returns (newest: int, out: seq<Item>, stopped: bool)
    requires offset + |page| <= |view| && page == view[offset..offset + |page|] && since <= newest0
    ensures PageTaken(view, offset, offset + |page|, since, maxRating, newest0, out0, newest, out, stopped)
  {
    newest, out, stopped := newest0, out0, false;
    var i := 0;
    while i < |page|
      invariant 0 <= i <= |page|
      invariant newest >= newest0
      invariant Reach(view, since, offset) == Reach(view, since, offset + i)
      invariant newest == NewestOf(view, offset, offset + i, newest0)
      invariant out == out0 + Taken(view, offset, offset + i, maxRating)
    {
      var r := page[i];
      assert r == view[offset + i];
      if r.readable {
        if r.time <= since {
          stopped := true;
          break;
        }
        if r.time > newest {
          newest := r.time;
        }
        if r.star.Some? && r.star.value <= maxRating {
          out := out + [r];
        }
      }
      i := i + 1;
    }
  }

  /** What the page means for the whole fetch. */
  method ScanPage(ghost view: seq<Item>, ghost offset: nat, page: seq<Item>, since: int, newest0: int, maxRating: nat,
                  out0: seq<Item>)
    returns (newest: int, out: seq<Item>, stopped: bool)
    requires NewestFirst(view) && offset + |page| <= |view| && page == view[offset..offset + |page|]
    requires since <= newest0
    requires SeenUpTo(view, offset, since, newest0, maxRating, out0)
    requires forall x | x in out0 :: Wanted(x, since, newest0, maxRating)
    ensures newest0 <= newest
    ensures newest == newest0 || exists x :: x in page && x.time == newest
    ensures SeenUpTo(view, if stopped then |view| else offset + |page|, since, newest, maxRating, out)
    ensures forall x | x in out :: Wanted(x, since, newest, maxRating)
    ensures forall x | x in out :: x in out0 || x in page
    ensures PageTaken(view, offset, offset + |page|, since, maxRating, newest0, out0, newest, out, stopped)
    ensures forall x | x in out && x !in out0 ::
              x in page && x.readable && x.star.Some? && x.star.value <= maxRating && x.time > since
    ensures forall i, s | 0 <= i < |page| && page[i].readable && page[i].star == Some(s) && s <= maxRating
                          && page[i].time > since :: page[i] in out
    ensures stopped <==> exists i :: 0 <= i < |page| && page[i].readable && page[i].time <= since
  {
    hide PageTaken, SeenUpTo, NewestFirst, Wanted;
    newest, out, stopped := TakePage(view, offset, page, since, newest0, maxRating, out0);
    PageIsGenuine(view, offset, offset + |page|, since, maxRating, newest0, out0, newest, out, stopped);
    PageIsSeen(view, offset, offset + |page|, since, maxRating, newest0, out0, newest, out, stopped);
    PageInFields(view, offset, page, since, maxRating, newest0, out0, newest, out, stopped);
  }

  ghost predicate Shown(pages: seq<Page>, x: Item) {
    exists i :: 0 <= i < |pages| && x in pages[i].reviews
  }

  /** Everything returned was on a page and is wanted; the cursor is the old one or the time of an entry on a page. */
  ghost predicate Genuine(pages: seq<Page>, since: int, newest: int, maxRating: nat, out: seq<Item>) {
    && (forall x | x in out :: Shown(pages, x) && Wanted(x, since, newest, maxRating))
    && (newest != since ==> exists x :: Shown(pages, x) && x.time == newest)
  }

  lemma GenuineIsWanted(pages: seq<Page>, since: int, newest: int, maxRating: nat, out: seq<Item>)
    requires Genuine(pages, since, newest, maxRating, out)
    ensures forall x | x in out :: Wanted(x, since, newest, maxRating)
  {
  }

  lemma GenuineGrows(pages: seq<Page>, page: Page, since: int, newest0: int, newest: int, maxRating: nat,
                     out0: seq<Item>, out: seq<Item>)
    requires Genuine(pages, since, newest0, maxRating, out0) && since <= newest0 <= newest
    requires newest == newest0 || exists x :: x in page.reviews && x.time == newest
    requires forall x | x in out :: Wanted(x, since, newest, maxRating) && (x in out0 || x in page.reviews)
    ensures Genuine(pages + [page], since, newest, maxRating, out)
  {
    var longer := pages + [page];
    assert longer[|pages|] == page;
    forall x | x in page.reviews ensures Shown(longer, x) {
      assert x in longer[|pages|].reviews;
    }
    forall x | Shown(pages, x) ensures Shown(longer, x) {
      var i :| 0 <= i < |pages| && x in pages[i].reviews;
      assert longer[i] == pages[i];
    }
    hide Shown;
  }

  /** Where the page loop stands: still going with everything before the offset seen, or finished. */
  ghost predicate LoopState(stored: seq<Item>, offset: nat, since: int, newest: int, maxRating: nat, out: seq<Item>,
                            done: bool) {
    if done then Complete(stored, since, newest, maxRating, out)
    else SeenUpTo(Listing(stored), offset, since, newest, maxRating, out)
  }

  /** Exactly what one page read contributes, and where it sends the loop. */
  ghost predicate ReadTaken(view: seq<Item>, offset: nat, since: int, maxRating: nat, newest0: int, out0: seq<Item>,
                            newest: int, out: seq<Item>, nextToken: Option<nat>)
    requires offset <= |view|
  {
    var hi := Min(offset + PAGE_SIZE, |view|);
    && PageTaken(view, offset, hi, since, maxRating, newest0, out0, newest, out, Reach(view, since, offset) < hi)
    && (nextToken.Some? <==> Reach(view, since, offset) >= hi && hi < |view|)
  }

  /** Time passes at the service; what was seen stays seen. */
  method LetTimePass(server: Server, changes: seq<Change>, ghost upTo: nat, ghost since: int, ghost newest: int,
                     ghost maxRating: nat, ghost out: seq<Item>)
    requires server.Valid() && Rising(server.clock, changes) && newest <= server.clock
    requires SeenUpTo(Listing(server.stored), upTo, since, newest, maxRating, out) && HeldOn(server.stored, out)
    modifies server
    ensures server.Valid() && server.clock == ClockAfter(old(server.clock), changes) && server.clock >= old(server.clock)
    ensures |server.stored| >= |old(server.stored)| && HeldOn(server.stored, out)
    ensures LaterOnly(old(server.stored), old(server.clock), server.stored)
    ensures changes == [] ==> server.stored == old(server.stored)
    ensures SeenUpTo(Listing(server.stored), upTo, since, newest, maxRating, out)
  {
    ChangesKeepSeen(server.stored, server.clock, changes, upTo, since, newest, maxRating, out);
    ChangesKeepHeld(server.stored, server.clock, changes, out);
    NeverShrinks(server.stored, changes);
    ChangesAreLater(server.stored, server.clock, changes);
    hide SeenUpTo, LaterOnly;
    server.Live(changes);
  }

  /** What a page shows is held. */
  lemma HeldOnGrows(stored: seq<Item>, pageToken: nat, page: seq<Item>, out0: seq<Item>, out: seq<Item>)
    requires HeldOn(stored, out0) && DistinctTimes(stored)
    requires forall x | x in page :: x in Listing(stored)
    requires forall x | x in out :: x in out0 || x in page
    ensures HeldOn(stored, out)
  {
    ListingSorted(stored);
    hide Listing, DistinctTimes;
    forall x | x in page ensures HasReview(stored, x.id, x.time) {
      assert x in Elements(Listing(stored));
      var i :| 0 <= i < |stored| && stored[i] == x;
      assert stored[i].id == x.id;
    }
  }

  /** One page read: the service moves on, the page is listed and scanned. */
  method ReadPage(server: Server, changes: seq<Change>, pageToken: nat, since: int, newest0: int, maxRating: nat,
                  out0: seq<Item>, ghost pages0: seq<Page>)
    returns (newest: int, out: seq<Item>, nextToken: Option<nat>, ghost pages: seq<Page>)
    requires server.Valid() && Rising(server.clock, changes)
    requires since <= newest0 <= server.clock
    requires SeenUpTo(Listing(server.stored), pageToken, since, newest0, maxRating, out0)
    requires Genuine(pages0, since, newest0, maxRating, out0) && HeldOn(server.stored, out0)
    modifies server
    ensures server.Valid() && server.clock == ClockAfter(old(server.clock), changes) && server.clock >= old(server.clock)
    ensures |server.stored| >= |old(server.stored)|
    ensures LaterOnly(old(server.stored), old(server.clock), server.stored)
    ensures newest0 <= newest <= server.clock
    ensures Genuine(pages, since, newest, maxRating, out) && HeldOn(server.stored, out)
    ensures nextToken.Some? ==> nextToken.value == pageToken + PAGE_SIZE < |server.stored|
    ensures LoopState(server.stored, if nextToken.Some? then nextToken.value else 0, since, newest, maxRating, out,
                      nextToken.None?)
    ensures changes == [] ==> server.stored == old(server.stored)
    ensures pageToken <= |Listing(server.stored)| ==>
              ReadTaken(Listing(server.stored), pageToken, since, maxRating, newest0, out0, newest, out, nextToken)
  {
    hide LaterOnly, Rising, Genuine, Listing, Clocked, Complete, DistinctTimes, NewestFirst, Matches, HeldOn;
    LetTimePass(server, changes, pageToken, since, newest0, maxRating, out0);
    var lr := server.List(pageToken);
    ghost var view := Listing(server.stored);
    ViewFacts(server.stored, server.clock);
    GenuineIsWanted(pages0, since, newest0, maxRating, out0);
    var stopped: bool;
    newest, out, stopped :=
      ScanPage(view, if pageToken > |view| then |view| else pageToken, lr.reviews, since, newest0, maxRating, out0);
    GenuineGrows(pages0, lr, since, newest0, newest, maxRating, out0, out);
    HeldOnGrows(server.stored, pageToken, lr.reviews, out0, out);
    pages := pages0 + [lr];
    nextToken := if stopped then None else lr.nextToken;
    if nextToken.None? {
      SeenAllIsComplete(server.stored, since, newest, maxRating, out);
    }
  }

  // ---- A service that does not change during the fetch ----

  predicate Still(drift: seq<seq<Change>>) {
    forall p | 0 <= p < |drift| :: drift[p] == []
  }

  /** The whole fetch of an unchanging listing, without pages: down to the first old entry or the page cap. */
  function StillFetch(view: seq<Item>, since: int, maxRating: nat): FetchResult {
    var reach := Reach(view, since, 0);
    var end := Min(reach, MAX_ENTRIES);
    FetchResult(Taken(view, 0, end, maxRating), NewestOf(view, 0, end, since),
                |view| > MAX_ENTRIES && reach >= MAX_ENTRIES)
  }

  /**
   * A fetch of an unchanging listing hits the page cap exactly when there are more entries than it reads and
   * none of those it reads is a readable one that is not newer than `since`.
   */
  lemma CapHitExactly(view: seq<Item>, since: int, maxRating: nat)
    ensures StillFetch(view, since, maxRating).pageCapHit
            <==> |view| > 1000 && forall p | 0 <= p < 1000 :: view[p].readable ==> view[p].time > since
  {
    ReachIs(view, since, 0);
    hide Reach, Taken, NewestOf;
  }

  lemma {:induction false} ReachSkips(view: seq<Item>, since: int, lo: nat, mid: nat)
    requires lo <= |view| && lo <= mid <= Reach(view, since, lo)
    ensures Reach(view, since, lo) == Reach(view, since, mid)
    decreases mid - lo
  {
    if lo < mid {
      ReachSkips(view, since, lo + 1, mid);
    }
  }

  lemma {:induction false} TakenJoins(view: seq<Item>, lo: nat, mid: nat, hi: nat, maxRating: nat, newest: int)
    requires lo <= mid <= hi <= |view|
    ensures Taken(view, lo, hi, maxRating) == Taken(view, lo, mid, maxRating) + Taken(view, mid, hi, maxRating)
    ensures NewestOf(view, lo, hi, newest) == NewestOf(view, mid, hi, NewestOf(view, lo, mid, newest))
    decreases hi
  {
    if mid < hi {
      TakenJoins(view, lo, mid, hi - 1, maxRating, newest);
    }
  }

  /** Where the page loop stands over an unchanging listing. */
  ghost predicate StillState(view: seq<Item>, page: nat, since: int, maxRating: nat, newest: int, out: seq<Item>,
                             next: Option<nat>)
  {
    var reach := Reach(view, since, 0);
    var end := if next.Some? then page * PAGE_SIZE else reach;
    && (if next.Some? then end <= reach && (page > 0 ==> end < |view|) else |view| <= MAX_ENTRIES || end < MAX_ENTRIES)
    && out == Taken(view, 0, end, maxRating)
    && newest == NewestOf(view, 0, end, since)
  }

  lemma StillPage(view: seq<Item>, page: nat, since: int, maxRating: nat, newest0: int, out0: seq<Item>,
                  newest: int, out: seq<Item>, next: Option<nat>)
    requires page < MAX_PAGES && page * PAGE_SIZE <= |view|
    requires StillState(view, page, since, maxRating, newest0, out0, Some(page * PAGE_SIZE))
    requires ReadTaken(view, page * PAGE_SIZE, since, maxRating, newest0, out0, newest, out, next)
    ensures StillState(view, page + 1, since, maxRating, newest, out, next)
  {
    var lo := page * PAGE_SIZE;
    var hi := Min(lo + PAGE_SIZE, |view|);
    ReachSkips(view, since, 0, lo);
    TakenJoins(view, 0, lo, Min(Reach(view, since, lo), hi), maxRating, since);
    hide Reach, Taken, NewestOf;
  }

  lemma StillEnd(view: seq<Item>, page: nat, since: int, maxRating: nat, newest: int, out: seq<Item>, next: Option<nat>)
    requires StillState(view, page, since, maxRating, newest, out, next)
    requires next.Some? ==> page == MAX_PAGES
    ensures FetchResult(out, newest, next.Some?) == StillFetch(view, since, maxRating)
  {
    hide Reach, Taken, NewestOf;
  }

  /** One turn of the page loop. */
  method FetchPage(server: Server, changes: seq<Change>, page: nat, since: int, newest0: int, maxRating: nat,
                   out0: seq<Item>, ghost pages0: seq<Page>, ghost view: seq<Item>)
    returns (newest: int, out: seq<Item>, nextToken: Option<nat>, ghost pages: seq<Page>)
    requires server.Valid() && Rising(server.clock, changes) && page < MAX_PAGES
    requires since <= newest0 <= server.clock && (page > 0 ==> |server.stored| > page * PAGE_SIZE)
    requires SeenUpTo(Listing(server.stored), page * PAGE_SIZE, since, newest0, maxRating, out0)
    requires Genuine(pages0, since, newest0, maxRating, out0) && HeldOn(server.stored, out0)
    modifies server
    ensures server.Valid() && server.clock == ClockAfter(old(server.clock), changes)
    ensures server.clock >= old(server.clock) && LaterOnly(old(server.stored), old(server.clock), server.stored)
    ensures newest0 <= newest <= server.clock
    ensures Genuine(pages, since, newest, maxRating, out) && HeldOn(server.stored, out)
    ensures nextToken.Some? ==> nextToken.value == (page + 1) * PAGE_SIZE < |server.stored|
    ensures LoopState(server.stored, if nextToken.Some? then nextToken.value else 0, since, newest, maxRating, out,
                      nextToken.None?)
    ensures changes == [] ==> server.stored == old(server.stored)
    ensures changes == [] && view == Listing(old(server.stored))
            && StillState(view, page, since, maxRating, newest0, out0, Some(page * PAGE_SIZE)) ==>
              StillState(view, page + 1, since, maxRating, newest, out, nextToken)
  {
    hide Rising, Genuine, SeenUpTo, LoopState, LaterOnly, Listing, Clocked, StillState, ReadTaken, HeldOn;
    ListingLength(server.stored);
    newest, out, nextToken, pages :=
      ReadPage(server, changes, page * PAGE_SIZE, since, newest0, maxRating, out0, pages0);
    ListingLength(server.stored);
    if changes == [] && view == Listing(server.stored)
       && StillState(view, page, since, maxRating, newest0, out0, Some(page * PAGE_SIZE)) {
      StillPage(view, page, since, maxRating, newest0, out0, newest, out, nextToken);
    }
  }

  /**
   * Fetch, with the service living on between the page reads as `drift` says; reading a page in `failing`
   * returns an error. Without a page-cap hit, everything wanted whose latest edit time is in (since, cursor]
   * was returned in that version; with one, the first thousand entries were looked at. If the service does not
   * change meanwhile, the result is exactly that of StillFetch.
   */
  method Fetch(server: Server, since: int, maxRating: nat, drift: seq<seq<Change>>, failing: set<nat>)
    returns (res: Option<FetchResult>, ghost pages: seq<Page>)
    requires server.Valid() && since <= server.clock
    requires |drift| == MAX_PAGES && DriftRises(server.clock, drift)
    modifies server
    ensures server.Valid() && server.clock >= old(server.clock)
    ensures LaterOnly(old(server.stored), old(server.clock), server.stored)
    ensures res.None? ==> exists p :: p in failing && p < MAX_PAGES
    ensures Still(drift) ==>
              && server.stored == old(server.stored)
              && (res.Some? ==> res.value == StillFetch(Listing(server.stored), since, maxRating))
    ensures res.Some? ==>
              var FetchResult(reviews, cursor, pageCapHit) := res.value;
              && since <= cursor <= server.clock
              && Genuine(pages, since, cursor, maxRating, reviews) && HeldOn(server.stored, reviews)
              && (!pageCapHit ==> Complete(server.stored, since, cursor, maxRating, reviews))
              && (forall x | x in reviews ::
                    x.readable && x.star.Some? && x.star.value <= maxRating && since < x.time <= cursor)
              && (!pageCapHit ==>
                    forall x, s | x in server.stored && x.readable && x.star == Some(s) && s <= maxRating
                                  && since < x.time <= cursor :: x in reviews)
              && (pageCapHit ==> |server.stored| > 1000)
              && (pageCapHit ==>
                    && |server.stored| > MAX_ENTRIES
                    && SeenUpTo(Listing(server.stored), MAX_ENTRIES, since, cursor, maxRating, reviews))
  {
    hide Genuine, SeenUpTo, Complete, Rising, Listing, Clocked, StillState, ReadTaken, StillFetch, Reach, LaterOnly,
         LoopState, HeldOn, DriftRises;
    var newest := since;
    var next: Option<nat> := Some(0);
    var reviews := [];
    var pageCapHit := false;
    pages := [];
    var page := 0;
    ghost var view := Listing(server.stored);
    FetchStart(server.stored, server.clock, since, maxRating);
    while next.Some? && !pageCapHit
      invariant 0 <= page <= MAX_PAGES
      invariant server.Valid() && server.clock >= old(server.clock)
      invariant LaterOnly(old(server.stored), old(server.clock), server.stored)
      invariant since <= newest <= server.clock
      invariant DriftRises(server.clock, drift[page..])
      invariant Genuine(pages, since, newest, maxRating, reviews) && HeldOn(server.stored, reviews)
      invariant next.Some? ==> next.value == page * PAGE_SIZE && (page > 0 ==> |server.stored| > next.value)
      invariant LoopState(server.stored, if next.Some? then next.value else 0, since, newest, maxRating, reviews,
                          next.None?)
      invariant pageCapHit ==> page == MAX_PAGES && next.Some?
      invariant Still(drift) ==>
                  && server.stored == old(server.stored)
                  && StillState(view, page, since, maxRating, newest, reviews, next)
      decreases !pageCapHit, MAX_PAGES - page
    {
      if page == MAX_PAGES {
        pageCapHit := true;
      } else {
        if page in failing {
          return None, pages;
        }
        LoopEnd(server.stored, next.value, since, newest, maxRating, reviews, false);
        NextDrift(server.clock, drift, page);
        ghost var before := server.stored;
        ghost var clock := server.clock;
        newest, reviews, next, pages :=
          FetchPage(server, drift[page], page, since, newest, maxRating, reviews, pages, view);
        LaterOnlyChains(old(server.stored), old(server.clock), before, clock, server.stored);
        page := page + 1;
      }
    }
    LoopEnd(server.stored, if next.Some? then next.value else 0, since, newest, maxRating, reviews, next.None?);
    if Still(drift) {
      StillEnd(view, page, since, maxRating, newest, reviews, next);
    }
    ResultInFields(server.stored, pages, since, newest, maxRating, reviews);
    res := Some(FetchResult(reviews, newest, pageCapHit));
  }

  lemma NextDrift(clock: int, drift: seq<seq<Change>>, page: nat)
    requires page < |drift| && DriftRises(clock, drift[page..])
    ensures Rising(clock, drift[page]) && DriftRises(ClockAfter(clock, drift[page]), drift[page + 1..])
  {
    assert drift[page..][0] == drift[page] && drift[page..][1..] == drift[page + 1..];
  }

  lemma ResultInFields(stored: seq<Item>, pages: seq<Page>, since: int, cursor: int, maxRating: nat, out: seq<Item>)
    requires Genuine(pages, since, cursor, maxRating, out)
    ensures forall x | x in out ::
              x.readable && x.star.Some? && x.star.value <= maxRating && since < x.time <= cursor
    ensures Complete(stored, since, cursor, maxRating, out) ==>
              forall x, s | x in stored && x.readable && x.star == Some(s) && s <= maxRating && since < x.time <= cursor ::
                x in out
  {
    hide Shown;
  }

  lemma LaterOnlyChains(a: seq<Item>, clock: int, b: seq<Item>, later: int, c: seq<Item>)
    requires LaterOnly(a, clock, b) && LaterOnly(b, later, c) && clock <= later
    ensures LaterOnly(a, clock, c)
  {
  }

  lemma LoopEnd(stored: seq<Item>, offset: nat, since: int, newest: int, maxRating: nat, out: seq<Item>, done: bool)
    requires LoopState(stored, offset, since, newest, maxRating, out, done)
    ensures if done then Complete(stored, since, newest, maxRating, out)
            else SeenUpTo(Listing(stored), offset, since, newest, maxRating, out)
  {
  }

  lemma FetchStart(stored: seq<Item>, clock: int, since: int, maxRating: nat)
    ensures LaterOnly(stored, clock, stored) && LoopState(stored, 0, since, since, maxRating, [], false)
    ensures SeenUpTo(Listing(stored), 0, since, since, maxRating, [])
    ensures Genuine([], since, since, maxRating, []) && HeldOn(stored, [])
    ensures StillState(Listing(stored), 0, since, maxRating, since, [], Some(0))
  {
  }
}
