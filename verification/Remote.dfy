/** The review service that crawling runs against: reviews change in place, listings sort by update time. */
module Remote {
  import opened Base

  /**
   * `star` is None for a rating word outside ONE..FIVE; an unreadable entry cannot be decoded, neither by the
   * client nor by the normalizer, which decode the same fields. `hash` is the hash of the whole entry.
   */
  datatype Item = Item(id: string, time: int, star: Option<nat>, readable: bool, hash: string,
                       author: string, comment: string, posted: Option<int>)

  /** A customer writes a review, or edits the one at `index`, which keeps its id. */
  datatype Change = Add(item: Item) | Edit(index: nat, item: Item)

  function Without<T>(s: seq<T>, i: nat): seq<T>
    requires i < |s|
  {
    s[..i] + s[i + 1..]
  }

  // ---- Sorting by update time, newest first ----

  ghost predicate NewestFirst(s: seq<Item>) {
    forall i, j | 0 <= i < j < |s| :: s[i].time > s[j].time
  }

  function Place(sorted: seq<Item>, x: Item): seq<Item> {
    if sorted == [] || x.time > sorted[0].time then [x] + sorted else [sorted[0]] + Place(sorted[1..], x)
  }

  /** What a listing shows of the stored reviews. */
  function Listing(stored: seq<Item>): seq<Item> {
    if stored == [] then [] else Place(Listing(stored[..|stored| - 1]), stored[|stored| - 1])
  }

  ghost predicate DistinctTimes(s: seq<Item>) {
    forall i, j | 0 <= i < j < |s| :: s[i].time != s[j].time
  }

  lemma {:induction false} PlaceSorted(sorted: seq<Item>, x: Item)
    requires NewestFirst(sorted)
    requires forall y | y in sorted :: y.time != x.time
    ensures NewestFirst(Place(sorted, x))
  {
    if sorted != [] && x.time < sorted[0].time {
      PlaceSorted(sorted[1..], x);
      var rest := Place(sorted[1..], x);
      PlaceElements(sorted[1..], x);
      forall y | y in rest ensures y.time < sorted[0].time {
        assert y in Elements(rest);
      }
    }
  }

  lemma {:induction false} PlaceElements(sorted: seq<Item>, x: Item)
    ensures Elements(Place(sorted, x)) == Elements(sorted) + {x}
  {
    if sorted != [] && x.time <= sorted[0].time {
      PlaceElements(sorted[1..], x);
      var rest := Place(sorted[1..], x);
      assert forall y :: y in sorted <==> y == sorted[0] || y in sorted[1..];
      assert forall y :: y in [sorted[0]] + rest <==> y == sorted[0] || y in Elements(rest);
    }
  }

  lemma {:induction false} ListingSorted(stored: seq<Item>)
    requires DistinctTimes(stored)
    ensures NewestFirst(Listing(stored))
    ensures Elements(Listing(stored)) == Elements(stored)
  {
    if stored != [] {
      var n := |stored| - 1;
      ListingSorted(stored[..n]);
      forall y | y in Listing(stored[..n]) ensures y.time != stored[n].time {
        assert y in Elements(stored[..n]);
      }
      PlaceSorted(Listing(stored[..n]), stored[n]);
      PlaceElements(Listing(stored[..n]), stored[n]);
      assert Elements(stored) == Elements(stored[..n]) + {stored[n]};
    }
  }

  /** Sorting is determined by the elements. */
  lemma {:induction false} SortedUnique(a: seq<Item>, b: seq<Item>)
    requires NewestFirst(a) && NewestFirst(b) && Elements(a) == Elements(b)
    ensures a == b
  {
    if a != [] {
      assert a[0] in Elements(b);
    }
    if b != [] {
      assert b[0] in Elements(a);
    }
    if a != [] && b != [] {
      assert a[0] == b[0];
      assert forall y :: y in Elements(a[1..]) <==> y in Elements(a) && y != a[0];
      assert forall y :: y in Elements(b[1..]) <==> y in Elements(b) && y != b[0];
      SortedUnique(a[1..], b[1..]);
    }
  }

  ghost predicate LaterThanAll(x: Item, s: seq<Item>) {
    forall y | y in s :: y.time < x.time
  }

  /** A new review goes to the front of the listing. */
  lemma AddMovesToFront(stored: seq<Item>, x: Item)
    requires DistinctTimes(stored) && LaterThanAll(x, stored)
    ensures DistinctTimes(stored + [x])
    ensures Listing(stored + [x]) == [x] + Listing(stored)
  {
    ListingSorted(stored);
    forall y | y in Listing(stored) ensures y.time < x.time {
      assert y in Elements(stored);
    }
    assert (stored + [x])[..|stored|] == stored;
  }

  lemma UpdateElements(stored: seq<Item>, i: nat, x: Item)
    requires DistinctTimes(stored) && i < |stored|
    ensures Elements(stored[i := x]) == Elements(stored) - {stored[i]} + {x}
  {
    var edited := stored[i := x];
    assert edited[i] == x;
    forall y | y in Elements(stored) - {stored[i]} ensures y in edited {
      var j :| 0 <= j < |stored| && stored[j] == y;
      assert edited[j] == y;
    }
    forall y | y in edited && y != x ensures y in Elements(stored) - {stored[i]} {
      var j :| 0 <= j < |edited| && edited[j] == y;
      assert stored[j].time != stored[i].time;
    }
  }

  lemma WithoutElements(view: seq<Item>, p: nat)
    requires NewestFirst(view) && p < |view|
    ensures NewestFirst(Without(view, p))
    ensures Elements(Without(view, p)) == Elements(view) - {view[p]}
  {
    var rest := Without(view, p);
    forall j | 0 <= j < |rest| ensures rest[j] == view[if j < p then j else j + 1] {
    }
    forall y | y in view && y != view[p] ensures y in rest {
      var j :| 0 <= j < |view| && view[j] == y;
      assert y == rest[if j < p then j else j - 1];
    }
    forall y | y in rest ensures y in view && y != view[p] {
      var j :| 0 <= j < |rest| && rest[j] == y;
      assert rest[j].time != view[p].time;
    }
  }

  lemma EditKeepsDistinct(stored: seq<Item>, i: nat, x: Item)
    requires DistinctTimes(stored) && i < |stored| && LaterThanAll(x, stored)
    ensures DistinctTimes(stored[i := x])
  {
    assert forall j | 0 <= j < |stored| :: stored[j] in stored;
  }

  lemma ToFront(rest: seq<Item>, stored: seq<Item>, x: Item)
    requires NewestFirst(rest) && Elements(rest) <= Elements(stored) && LaterThanAll(x, stored)
    ensures NewestFirst([x] + rest) && Elements([x] + rest) == {x} + Elements(rest)
  {
    forall y | y in rest ensures y.time < x.time {
      assert y in Elements(rest);
      assert y in Elements(stored);
    }
  }

  /** An edit in place takes the old entry out of the listing and puts the new one in front. */
  lemma EditMovesToFront(stored: seq<Item>, i: nat, x: Item) returns (p: nat)
    requires DistinctTimes(stored) && i < |stored| && LaterThanAll(x, stored)
    ensures DistinctTimes(stored[i := x])
    ensures p < |Listing(stored)| && Listing(stored[i := x]) == [x] + Without(Listing(stored), p)
  {
    hide Listing, DistinctTimes, LaterThanAll;
    var view := Listing(stored);
    var edited := stored[i := x];
    EditKeepsDistinct(stored, i, x);
    ListingSorted(stored);
    ListingSorted(edited);
    assert stored[i] in Elements(view) by {
      assert stored[i] in Elements(stored);
    }
    p :| 0 <= p < |view| && view[p] == stored[i];
    UpdateElements(stored, i, x);
    WithoutElements(view, p);
    ToFront(Without(view, p), stored, x);
    SortedUnique([x] + Without(view, p), Listing(edited));
  }

  // ---- The service ----

  /** The entry that a change leaves. */
  function NewEntry(stored: seq<Item>, c: Change): Item {
    if c.Edit? && c.index < |stored| then c.item.(id := stored[c.index].id) else c.item
  }

  function Changed(stored: seq<Item>, c: Change): seq<Item> {
    match c
    case Add(x) => stored + [x]
    case Edit(i, x) => if i < |stored| then stored[i := NewEntry(stored, c)] else stored
  }

  /** Edit times rise strictly: a change is later than everything before it. */
  predicate RisingChange(clock: int, c: Change) {
    c.item.time > clock
  }

  ghost predicate Clocked(stored: seq<Item>, clock: int) {
    DistinctTimes(stored) && forall y | y in stored :: y.time <= clock
  }

  /** What a client still misses when it has looked at the first `upTo` entries. */
  ghost predicate SeenUpTo(view: seq<Item>, upTo: nat, since: int, newest: int, maxRating: nat, out: seq<Item>) {
    forall p | 0 <= p < upTo && p < |view| && Wanted(view[p], since, newest, maxRating) :: view[p] in out
  }

  predicate Wanted(x: Item, since: int, newest: int, maxRating: nat) {
    since < x.time <= newest && Matches(x, maxRating)
  }

  predicate Matches(x: Item, maxRating: nat) {
    x.readable && x.star.Some? && x.star.value <= maxRating
  }

  lemma AddKeepsSeen(stored: seq<Item>, x: Item, upTo: nat, since: int, newest: int, maxRating: nat, out: seq<Item>)
    requires DistinctTimes(stored) && LaterThanAll(x, stored) && newest < x.time
    requires SeenUpTo(Listing(stored), upTo, since, newest, maxRating, out)
    ensures DistinctTimes(stored + [x])
    ensures SeenUpTo(Listing(stored + [x]), upTo, since, newest, maxRating, out)
  {
    hide Listing, DistinctTimes, LaterThanAll, Matches;
    AddMovesToFront(stored, x);
  }

  lemma EditKeepsSeen(stored: seq<Item>, i: nat, x: Item, upTo: nat, since: int, newest: int, maxRating: nat,
                      out: seq<Item>)
    requires DistinctTimes(stored) && i < |stored| && LaterThanAll(x, stored) && newest < x.time
    requires SeenUpTo(Listing(stored), upTo, since, newest, maxRating, out)
    ensures DistinctTimes(stored[i := x])
    ensures SeenUpTo(Listing(stored[i := x]), upTo, since, newest, maxRating, out)
  {
    hide Listing, DistinctTimes, LaterThanAll, Matches;
    var view := Listing(stored);
    var p := EditMovesToFront(stored, i, x);
    var after := Listing(stored[i := x]);
    forall q | 0 < q < |after| ensures after[q] == view[if q - 1 < p then q - 1 else q] {
    }
  }

  /** A change pushes entries down by at most one and moves nothing up but itself, so nothing slips past an offset. */
  lemma ChangeKeepsSeen(stored: seq<Item>, clock: int, c: Change, upTo: nat, since: int, newest: int, maxRating: nat,
                        out: seq<Item>)
    requires Clocked(stored, clock) && RisingChange(clock, c) && newest <= clock
    requires SeenUpTo(Listing(stored), upTo, since, newest, maxRating, out)
    ensures Clocked(Changed(stored, c), c.item.time)
    ensures SeenUpTo(Listing(Changed(stored, c)), upTo, since, newest, maxRating, out)
  {
    hide Listing, SeenUpTo, DistinctTimes;
    var y := NewEntry(stored, c);
    assert LaterThanAll(y, stored);
    match c
    case Add(x) => AddKeepsSeen(stored, x, upTo, since, newest, maxRating, out);
    case Edit(i, x) =>
      if i < |stored| {
        EditKeepsSeen(stored, i, y, upTo, since, newest, maxRating, out);
      }
  }

  function AllChanged(stored: seq<Item>, changes: seq<Change>): seq<Item> {
    if changes == [] then stored else Changed(AllChanged(stored, changes[..|changes| - 1]), changes[|changes| - 1])
  }

  function ClockBefore(clock: int, changes: seq<Change>, i: nat): int
    requires i <= |changes|
  {
    if i == 0 then clock else changes[i - 1].item.time
  }

  function ClockAfter(clock: int, changes: seq<Change>): int {
    ClockBefore(clock, changes, |changes|)
  }

  predicate Rising(clock: int, changes: seq<Change>) {
    forall i | 0 <= i < |changes| :: changes[i].item.time > ClockBefore(clock, changes, i)
  }

  lemma RisingPrefix(clock: int, changes: seq<Change>, n: nat)
    requires Rising(clock, changes) && n < |changes|
    ensures Rising(clock, changes[..n])
    ensures RisingChange(ClockAfter(clock, changes[..n]), changes[n])
  {
    var front := changes[..n];
    forall i | 0 <= i < n ensures front[i].item.time > ClockBefore(clock, front, i) {
      assert front[i] == changes[i] && ClockBefore(clock, front, i) == ClockBefore(clock, changes, i);
    }
  }

  lemma {:induction false} ChangesKeepSeen(stored: seq<Item>, clock: int, changes: seq<Change>, upTo: nat, since: int,
                                           newest: int, maxRating: nat, out: seq<Item>)
    requires Clocked(stored, clock) && Rising(clock, changes) && newest <= clock
    requires SeenUpTo(Listing(stored), upTo, since, newest, maxRating, out)
    ensures clock <= ClockAfter(clock, changes)
    ensures Clocked(AllChanged(stored, changes), ClockAfter(clock, changes))
    ensures SeenUpTo(Listing(AllChanged(stored, changes)), upTo, since, newest, maxRating, out)
  {
    if changes != [] {
      var n := |changes| - 1;
      RisingPrefix(clock, changes, n);
      ChangesKeepSeen(stored, clock, changes[..n], upTo, since, newest, maxRating, out);
      ChangeKeepsSeen(AllChanged(stored, changes[..n]), ClockAfter(clock, changes[..n]), changes[n], upTo, since,
                      newest, maxRating, out);
    }
  }

  /** Whatever is new at the service is later than the old clock. */
  ghost predicate LaterOnly(before: seq<Item>, clock: int, after: seq<Item>) {
    forall x | x in after :: x in before || x.time > clock
  }

  lemma {:induction false} ChangesAreLater(stored: seq<Item>, clock: int, changes: seq<Change>)
    requires Rising(clock, changes)
    ensures LaterOnly(stored, clock, AllChanged(stored, changes)) && clock <= ClockAfter(clock, changes)
  {
    if changes != [] {
      var n := |changes| - 1;
      RisingPrefix(clock, changes, n);
      ChangesAreLater(stored, clock, changes[..n]);
      hide Rising;
      var before := AllChanged(stored, changes[..n]);
      forall x | x in Changed(before, changes[n]) ensures x in before || x == NewEntry(before, changes[n]) {
      }
    }
  }

  /** Each entry returned is a version, the present or an older one, of a review that the service holds. */
  ghost predicate HeldOn(stored: seq<Item>, out: seq<Item>) {
    forall y | y in out :: HasReview(stored, y.id, y.time)
  }

  ghost predicate HasReview(stored: seq<Item>, id: string, time: int) {
    exists i :: 0 <= i < |stored| && stored[i].id == id && stored[i].time >= time
  }

  lemma ChangeKeepsReviews(stored: seq<Item>, clock: int, c: Change, id: string, time: int)
    requires Clocked(stored, clock) && RisingChange(clock, c) && HasReview(stored, id, time)
    ensures HasReview(Changed(stored, c), id, time)
  {
    var i :| 0 <= i < |stored| && stored[i].id == id && stored[i].time >= time;
    assert Changed(stored, c)[i].id == id && stored[i] in stored;
  }

  lemma {:induction false} ChangesKeepHeld(stored: seq<Item>, clock: int, changes: seq<Change>, out: seq<Item>)
    requires Clocked(stored, clock) && Rising(clock, changes) && HeldOn(stored, out)
    ensures HeldOn(AllChanged(stored, changes), out)
    ensures Clocked(AllChanged(stored, changes), ClockAfter(clock, changes))
  {
    ChangesKeepSeen(stored, clock, changes, 0, 0, clock, 0, []);
    if changes != [] {
      var n := |changes| - 1;
      RisingPrefix(clock, changes, n);
      ChangesKeepHeld(stored, clock, changes[..n], out);
      hide Clocked, Rising, HasReview;
      forall y | y in out ensures HasReview(AllChanged(stored, changes), y.id, y.time) {
        ChangeKeepsReviews(AllChanged(stored, changes[..n]), ClockAfter(clock, changes[..n]), changes[n], y.id, y.time);
      }
    }
  }

  const PAGE_SIZE := 50

  lemma AllChangedStart(stored: seq<Item>, clock: int)
    ensures AllChanged(stored, []) == stored && ClockAfter(clock, []) == clock
  {
  }

  lemma OneMoreChange(start: seq<Item>, clock: int, changes: seq<Change>, i: nat)
    requires i < |changes| && Rising(clock, changes)
    requires Clocked(AllChanged(start, changes[..i]), ClockAfter(clock, changes[..i]))
    ensures AllChanged(start, changes[..i + 1]) == Changed(AllChanged(start, changes[..i]), changes[i])
    ensures ClockAfter(clock, changes[..i + 1]) == changes[i].item.time
    ensures Clocked(AllChanged(start, changes[..i + 1]), changes[i].item.time)
  {
    assert changes[..i + 1][..i] == changes[..i];
    var stored := AllChanged(start, changes[..i]);
    RisingPrefix(clock, changes, i);
    ChangeKeepsSeen(stored, ClockAfter(clock, changes[..i]), changes[i], 0, 0, ClockAfter(clock, changes[..i]), 0, []);
    hide Clocked, Changed;
  }

  /** One listing request: a page of the sorted list and the offset of the next page, if there is one. */
  datatype Page = Page(reviews: seq<Item>, nextToken: Option<nat>)

  class Server {
    var stored: seq<Item>
    ghost var clock: int

    ghost predicate Valid()
      reads this
    {
      Clocked(stored, clock)
    }

    /** The world goes on: customers write and edit. */
    method Live(changes: seq<Change>)
      requires Valid() && Rising(clock, changes)
      modifies this
      ensures Valid()
      ensures stored == AllChanged(old(stored), changes) && clock == ClockAfter(old(clock), changes)
    {
      hide Clocked, Rising, AllChanged, ClockAfter, SeenUpTo;
      AllChangedStart(stored, clock);
      assert changes[..0] == [];
      var i := 0;
      while i < |changes|
        invariant 0 <= i <= |changes|
        invariant Valid()
        invariant stored == AllChanged(old(stored), changes[..i]) && clock == ClockAfter(old(clock), changes[..i])
      {
        var c := changes[i];
        OneMoreChange(old(stored), old(clock), changes, i);
        match c {
          case Add(x) => stored := stored + [x];
          case Edit(j, x) =>
            if j < |stored| {
              stored := stored[j := x.(id := stored[j].id)];
            }
        }
        clock := c.item.time;
        i := i + 1;
      }
      assert changes[..i] == changes;
    }

    method List(pageToken: nat) returns (page: Page)
      requires Valid()
      ensures var view := Listing(stored);
              var offset := if pageToken > |view| then |view| else pageToken;
              var end := Min(offset + PAGE_SIZE, |view|);
              page == Page(view[offset..end], if end < |view| then Some(end) else None)
    {
      var list := Listing(stored);
      var offset := pageToken;
      if offset > |list| {
        offset := |list|;
      }
      var end := offset + PAGE_SIZE;
      if end > |list| {
        end := |list|;
      }
      page := Page(list[offset..end], if end < |list| then Some(end) else None);
    }
  }
}
