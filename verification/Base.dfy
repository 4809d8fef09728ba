/** Options, sets of sequence elements and the contract of an unordered `LIMIT` query. */
module Base {

  datatype Option<+T> = None | Some(value: T)

  function Min(a: nat, b: nat): nat {
    if a < b then a else b
  }

  predicate Distinct<T(==)>(s: seq<T>) {
    forall i, j | 0 <= i < j < |s| :: s[i] != s[j]
  }

  function Elements<T>(s: seq<T>): set<T> {
    set x | x in s
  }

  /** `SELECT ... LIMIT limit` without `ORDER BY`: any `limit` rows of the answer, or all of them. */
  predicate Picks<T(==)>(out: seq<T>, answer: set<T>, limit: nat) {
    && Distinct(out)
    && (forall x | x in out :: x in answer)
    && |out| == Min(limit, |answer|)
  }

  lemma {:induction false} DistinctCard<T>(s: seq<T>)
    requires Distinct(s)
    ensures |Elements(s)| == |s|
  {
    if s == [] {
      assert Elements(s) == {};
    } else {
      var n := |s| - 1;
      DistinctCard(s[..n]);
      assert Elements(s) == Elements(s[..n]) + {s[n]};
      assert s[n] !in s[..n];
    }
  }

  lemma SubsetCard<T>(small: set<T>, big: set<T>)
    requires small <= big
    ensures |small| <= |big|
    ensures |big - small| == |big| - |small|
  {
    assert big == small + (big - small);
    assert small !! (big - small);
  }

  /** When the answer fits under the limit, every row of it is picked. */
  lemma PicksAll<T>(out: seq<T>, answer: set<T>, limit: nat)
    requires Picks(out, answer, limit)
    requires |answer| <= limit
    ensures Elements(out) == answer
  {
    DistinctCard(out);
    assert Elements(out) <= answer;
    SubsetCard(Elements(out), answer);
    assert answer == Elements(out) + (answer - Elements(out));
  }

  /** A list that stopped at the limit, or holds the whole answer, is a pick. */
  lemma PicksWhen<T>(out: seq<T>, answer: set<T>, limit: nat)
    requires Distinct(out) && Elements(out) <= answer && |out| <= limit
    requires |out| == limit || Elements(out) == answer
    ensures Picks(out, answer, limit)
  {
    DistinctCard(out);
    SubsetCard(Elements(out), answer);
    forall x | x in out ensures x in answer {
      assert x in Elements(out);
    }
  }

  lemma OneMorePicked<T>(answer: set<T>, out: seq<T>, x: T)
    requires Distinct(out) && Elements(out) <= answer && x in answer - Elements(out)
    ensures Distinct(out + [x]) && Elements(out + [x]) == Elements(out) + {x}
  {
    assert x !in out;
    assert forall y :: y in out + [x] <==> y in out || y == x;
  }

  lemma NothingPicked<T>()
    ensures Distinct<T>([]) && Elements<T>([]) == {}
  {
  }

  /** An unordered query under a limit. */
  method PickSome<T(==)>(answer: set<T>, limit: nat) returns (out: seq<T>)
    ensures Picks(out, answer, limit)
  {
    hide Distinct, Elements, Picks;
    out := [];
    NothingPicked<T>();
    var left := answer;
    while left != {} && |out| < limit
      invariant |out| <= limit && Distinct(out)
      invariant left == answer - Elements(out) && Elements(out) <= answer
      decreases |left|
    {
      var x :| x in left;
      OneMorePicked(answer, out, x);
      out := out + [x];
      left := left - {x};
    }
    PicksWhen(out, answer, limit);
  }

  // ---- ORDER BY time LIMIT limit ----

  function TimeOf<T(==)>(times: map<T, int>, x: T): int {
    if x in times then times[x] else 0
  }

  /** Nothing that was left or comes later in the list is earlier than an element of it. */
  ghost predicate EarliestFirst<T(!new)>(times: map<T, int>, answer: set<T>, picked: seq<T>) {
    forall i, x | 0 <= i < |picked| && x in answer - Elements(picked[..i]) ::
      TimeOf(times, picked[i]) <= TimeOf(times, x)
  }

  /** That is: the list rises, and what was left is not earlier than anything in it. */
  lemma EarliestFirstExactly<T(!new)>(times: map<T, int>, answer: set<T>, picked: seq<T>)
    requires answer <= times.Keys && Distinct(picked) && forall i | 0 <= i < |picked| :: picked[i] in answer
    ensures EarliestFirst(times, answer, picked) <==>
              && (forall i, j | 0 <= i < j < |picked| :: times[picked[i]] <= times[picked[j]])
              && (forall i, x | 0 <= i < |picked| && x in answer && x !in picked :: times[picked[i]] <= times[x])
  {
    if EarliestFirst(times, answer, picked) {
      forall i, j | 0 <= i < j < |picked| ensures times[picked[i]] <= times[picked[j]] {
        assert picked[j] in answer - Elements(picked[..i]);
      }
      forall i, x | 0 <= i < |picked| && x in answer && x !in picked ensures times[picked[i]] <= times[x] {
        assert x in answer - Elements(picked[..i]);
      }
    } else {
      var i, x :| 0 <= i < |picked| && x in answer - Elements(picked[..i])
                  && TimeOf(times, picked[i]) > TimeOf(times, x);
      assert forall j | 0 <= j < i :: picked[j] in picked[..i];
      if x in picked {
        var j :| 0 <= j < |picked| && picked[j] == x;
        assert i < j;
      }
    }
  }

  lemma NothingEarlier<T(!new)>(times: map<T, int>, answer: set<T>)
    ensures EarliestFirst(times, answer, [])
  {
  }

  lemma EarliestNext<T(!new)>(times: map<T, int>, answer: set<T>, picked: seq<T>, x: T)
    requires EarliestFirst(times, answer, picked)
    requires forall y | y in answer - Elements(picked) :: TimeOf(times, x) <= TimeOf(times, y)
    ensures EarliestFirst(times, answer, picked + [x])
  {
    hide TimeOf;
    assert forall i | 0 <= i <= |picked| :: (picked + [x])[..i] == picked[..i];
    assert picked[..|picked|] == picked;
  }

  method PickEarliest<T(!new, ==)>(times: map<T, int>, answer: set<T>, limit: nat) returns (out: seq<T>)
    ensures Picks(out, answer, limit) && EarliestFirst(times, answer, out)
  {
    hide EarliestFirst, TimeOf, Distinct, Elements, Picks;
    out := [];
    NothingPicked<T>();
    NothingEarlier(times, answer);
    var left := answer;
    while left != {} && |out| < limit
      invariant |out| <= limit && Distinct(out)
      invariant left == answer - Elements(out) && Elements(out) <= answer
      invariant EarliestFirst(times, answer, out)
      decreases |left|
    {
      var x := Earliest(times, left);
      OneMorePicked(answer, out, x);
      EarliestNext(times, answer, out, x);
      out := out + [x];
      left := left - {x};
    }
    PicksWhen(out, answer, limit);
  }

  method Earliest<T(!new, ==)>(times: map<T, int>, all: set<T>) returns (least: T)
    requires all != {}
    ensures least in all && forall x | x in all :: TimeOf(times, least) <= TimeOf(times, x)
  {
    least :| least in all;
    var left := all - {least};
    while left != {}
      invariant left <= all && least in all
      invariant forall x | x in all - left :: TimeOf(times, least) <= TimeOf(times, x)
      decreases |left|
    {
      var x :| x in left;
      if TimeOf(times, x) < TimeOf(times, least) {
        least := x;
      }
      left := left - {x};
    }
  }
}
