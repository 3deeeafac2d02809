/**
 * The trailing-twelve-month subscription count (`SubscriptionCountAPI.get`).
 * Months are integer month indices (year * 12 + month); the reference point of
 * a month is compared against a subscription's start and end, both inclusive.
 */
module Subscriptions {

  /** A `Subscription` row: its start and end. */
  datatype Subscription = Subscription(start: int, end: int)

  /** The number of reference points, one per month. */
  const Months: nat := 12

  /** `sub_start_date <= point <= sub_end_date`. */
  predicate Covers(s: Subscription, point: int)
  {
    s.start <= point <= s.end
  }

  /** The `filter(...).count()` query for one reference point. */
  function CountCovering(subs: seq<Subscription>, point: int): (n: nat)
    ensures n <= |subs|
    ensures (forall k :: 0 <= k < |subs| ==> !Covers(subs[k], point)) ==> n == 0
    decreases |subs|
  {
    if subs == [] then 0
    else CountCovering(subs[..|subs| - 1], point) + (if Covers(subs[|subs| - 1], point) then 1 else 0)
  }

  /** The positions of the subscriptions that cover `point`. */
  function CoveringAt(subs: seq<Subscription>, point: int): set<int>
  {
    set k | 0 <= k < |subs| && Covers(subs[k], point)
  }

  /** The query counts exactly the subscriptions whose interval contains the point. */
  lemma {:induction false} CountIsCovering(subs: seq<Subscription>, point: int)
    ensures CountCovering(subs, point) == |CoveringAt(subs, point)|
  {
    if subs != [] {
      var n := |subs| - 1;
      var init := subs[..n];
      CountIsCovering(init, point);
      var s := CoveringAt(init, point);
      if Covers(subs[n], point) {
        assert CoveringAt(subs, point) == s + {n};
        assert n !in s;
      } else {
        assert CoveringAt(subs, point) == s;
      }
    }
  }

  /** One more subscription adds one to the count of exactly the points inside its interval. */
  lemma CountAddOne(subs: seq<Subscription>, s: Subscription, point: int)
    ensures CountCovering(subs + [s], point) == CountCovering(subs, point) + (if s.start <= point <= s.end then 1 else 0)
  {
    assert (subs + [s])[..|subs|] == subs;
  }

  /** The reference points: `today` minus 11, 10, ..., 0 months, oldest first. */
  function Points(today: int): (ps: seq<int>)
    ensures |ps| == Months && ps[Months - 1] == today
    ensures forall i :: 0 <= i < Months ==> ps[i] == today - (Months - 1 - i)
  {
    seq(Months, i => today - (Months - 1 - i))
  }

  /** `SubscriptionCountAPI.get`: the twelve month labels, oldest first, and the count for each. */
  method SubscriptionCounts(today: int, subs: seq<Subscription>) returns (dates: seq<int>, counts: seq<nat>)
    ensures |dates| == Months && |counts| == Months
    ensures dates[Months - 1] == today
    ensures forall i, j :: 0 <= i < j < Months ==> dates[i] < dates[j]
    ensures forall i :: 0 <= i < Months ==> dates[i] == today - (Months - 1 - i)
    ensures forall i :: 0 <= i < Months ==> counts[i] == |CoveringAt(subs, dates[i])|
  {
    var points := Points(today);
    dates, counts := [], [];
    var i := 0;
    while i < |points|
      invariant 0 <= i <= |points|
      invariant dates == points[..i]
      invariant |counts| == i
      invariant forall j :: 0 <= j < i ==> counts[j] == |CoveringAt(subs, points[j])|
    {
      var point := points[i];
      var count := CountCovering(subs, point);
      CountIsCovering(subs, point);
      dates := dates + [point];
      counts := counts + [count];
      i := i + 1;
    }
  }
}
