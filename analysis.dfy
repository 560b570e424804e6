/** The route analyser: diagnostics of a finished route, and how they relate
  * to the score the optimiser ranks routes by. */
module Analysis {
  import opened Routes
  import opened Scoring

  /** The diagnostics `analyze_route_quality` returns. */
  datatype RouteQuality = RouteQuality(
    totalDistance: nat,
    perishablePositions: seq<nat>,
    avgPerishablePosition: real,
    perishableDeliveredEarly: nat)

  /** Position `p` of `route` holds a stop other than the origin index whose
    * item is perishable. */
  ghost predicate PerishableAt(route: seq<nat>, kinds: seq<Kind>, p: nat)
    requires InBounds(route, |kinds|)
  {
    p < |route| && route[p] > 0 && kinds[route[p]] == Perishable
  }

  /** The positions `i, i + 1, ...` of `route` that hold a perishable stop, in order. */
  function PositionsFrom(route: seq<nat>, kinds: seq<Kind>, i: nat): seq<nat>
    requires InBounds(route, |kinds|)
    decreases |route| - i
  {
    if i >= |route| then []
    else (if route[i] > 0 && kinds[route[i]] == Perishable then [i] else []) + PositionsFrom(route, kinds, i + 1)
  }

  function PerishablePositions(route: seq<nat>, kinds: seq<Kind>): seq<nat>
    requires InBounds(route, |kinds|)
  {
    PositionsFrom(route, kinds, 0)
  }

  /** The positions listed from `i` on are exactly the perishable positions
    * at or after `i`, in increasing order. */
  lemma {:induction false} PositionsFromFacts(route: seq<nat>, kinds: seq<Kind>, i: nat)
    requires InBounds(route, |kinds|)
    ensures forall p :: p in PositionsFrom(route, kinds, i) <==> i <= p && PerishableAt(route, kinds, p)
    ensures Increasing(PositionsFrom(route, kinds, i))
    decreases |route| - i
  {
    if i < |route| {
      PositionsFromFacts(route, kinds, i + 1);
      var rest := PositionsFrom(route, kinds, i + 1);
      var s := PositionsFrom(route, kinds, i);
      if route[i] > 0 && kinds[route[i]] == Perishable {
        assert s == [i] + rest;
        forall a, b | 0 <= a < b < |s| ensures s[a] < s[b] {
          if a == 0 {
            assert s[b] == rest[b - 1] && s[b] in rest;
          } else {
            assert s[a] == rest[a - 1] && s[b] == rest[b - 1];
          }
        }
      } else {
        assert s == rest;
      }
    }
  }

  /** The positions of the perishable stops of a route, in increasing order. */
  lemma PerishablePositionsFacts(route: seq<nat>, kinds: seq<Kind>)
    requires InBounds(route, |kinds|)
    ensures forall p :: p in PerishablePositions(route, kinds) <==> PerishableAt(route, kinds, p)
    ensures Increasing(PerishablePositions(route, kinds))
  {
    PositionsFromFacts(route, kinds, 0);
  }

  function Sum(s: seq<nat>): nat
  {
    if s == [] then 0 else s[0] + Sum(s[1..])
  }

  /** The mean of the values of `s`, or 0 when there are none. */
  function Average(s: seq<nat>): real
  {
    if |s| > 0 then Sum(s) as real / |s| as real else 0.0
  }

  /** How many values of `s` are at most `bound`. */
  function CountAtMost(s: seq<nat>, bound: nat): (c: nat)
    ensures c <= |s|
  {
    if s == [] then 0 else (if s[0] <= bound then 1 else 0) + CountAtMost(s[1..], bound)
  }

  /** In an increasing sequence, the elements at most `bound` are exactly the
    * first `CountAtMost(s, bound)` ones. */
  lemma {:induction false} CountAtMostIsPrefix(s: seq<nat>, bound: nat)
    requires Increasing(s)
    ensures forall k :: 0 <= k < |s| ==> (s[k] <= bound <==> k < CountAtMost(s, bound))
  {
    if s != [] {
      IncreasingTail(s);
      CountAtMostIsPrefix(s[1..], bound);
      forall k | 1 <= k < |s| ensures s[k] <= bound <==> k < CountAtMost(s, bound) {
        assert s[k] == s[1..][k - 1];
        assert s[0] < s[k];
      }
    }
  }

  lemma {:induction false} SumAtLeast(s: seq<nat>, lo: nat)
    requires forall k :: 0 <= k < |s| ==> lo <= s[k]
    ensures |s| * lo <= Sum(s)
  {
    if s != [] {
      var t := s[1..];
      SumAtLeast(t, lo);
      assert |s| * lo == lo + |t| * lo;
    }
  }

  lemma {:induction false} SumAtMost(s: seq<nat>, hi: nat)
    requires forall k :: 0 <= k < |s| ==> s[k] <= hi
    ensures Sum(s) <= |s| * hi
  {
    if s != [] {
      var t := s[1..];
      SumAtMost(t, hi);
      assert |s| * hi == hi + |t| * hi;
    }
  }

  /** A mean of `count` values lies between their bounds. */
  lemma MeanBetween(total: nat, count: nat, lo: nat, hi: nat)
    requires count > 0 && count * lo <= total <= count * hi
    ensures lo as real <= total as real / count as real <= hi as real
  {
  }

  /** On a route that starts at the origin, the mean perishable position lies
    * between the first and the last position after the origin. */
  lemma AverageInRange(route: seq<nat>, kinds: seq<Kind>)
    requires InBounds(route, |kinds|) && |route| > 0 && route[0] == 0
    requires |PerishablePositions(route, kinds)| > 0
    ensures 1.0 <= Average(PerishablePositions(route, kinds)) <= (|route| - 1) as real
  {
    var s := PerishablePositions(route, kinds);
    var last: nat := |route| - 1;
    PerishablePositionsFacts(route, kinds);
    forall k | 0 <= k < |s| ensures 1 <= s[k] <= last {
      assert s[k] in s;
    }
    SumAtLeast(s, 1);
    SumAtMost(s, last);
    MeanBetween(Sum(s), |s|, 1, last);
  }

  lemma {:induction false} PenaltyFromPositions(route: seq<nat>, kinds: seq<Kind>, i: nat)
    requires InBounds(route, |kinds|) && i >= 1
    requires forall k :: 1 <= k < |route| ==> route[k] != 0
    ensures PenaltyFrom(route, kinds, i) + PenaltyPerPosition * |PositionsFrom(route, kinds, i)|
            == PenaltyPerPosition * Sum(PositionsFrom(route, kinds, i))
    decreases |route| - i
  {
    if i < |route| {
      PenaltyFromPositions(route, kinds, i + 1);
      var rest := PositionsFrom(route, kinds, i + 1);
      assert PenaltyFrom(route, kinds, i) == PositionPenalty(route, kinds, i) + PenaltyFrom(route, kinds, i + 1);
      if kinds[route[i]] == Perishable {
        var s := PositionsFrom(route, kinds, i);
        assert s == [i] + rest;
        assert s[1..] == rest;
        assert Sum(s) == i + Sum(rest);
        assert PositionPenalty(route, kinds, i) == (i - 1) * PenaltyPerPosition;
      } else {
        assert PositionsFrom(route, kinds, i) == rest;
      }
    }
  }

  /** The diagnostics determine the score: with `P` the perishable positions,
    * the score of a route is its total distance plus `5 * (p - 1)` for each
    * `p` in `P`. */
  lemma ScoreFromPositions(route: seq<nat>, kinds: seq<Kind>, m: Matrix, n: nat)
    requires IsMatrix(m, n) && |kinds| == n && IsRoute(route, n)
    ensures InBounds(route, n)
    ensures Score(route, kinds, m) + PenaltyPerPosition * |PerishablePositions(route, kinds)|
            == Distance(route, m) + PenaltyPerPosition * Sum(PerishablePositions(route, kinds))
  {
    PermutationInBounds(route, n);
    forall k | 1 <= k < |route| ensures route[k] != 0 {
      DistinctInRoute(route, n, k);
    }
    PenaltyFromPositions(route, kinds, 1);
    if |route| > 0 {
      assert PerishablePositions(route, kinds) == PositionsFrom(route, kinds, 1);
    }
  }

  /** A route visits the origin index only at position 0. */
  lemma DistinctInRoute(route: seq<nat>, n: nat, k: nat)
    requires IsRoute(route, n) && 1 <= k < |route|
    ensures route[k] != 0
  {
    PermutationInBounds(route, n);
    IotaCount(0, n, 0);
    assert route == route[..k] + [route[k]] + route[k + 1..];
    assert route[..k] == [0] + route[1..k];
    var a: seq<nat>, b: seq<nat> := route[1..k], route[k + 1..];
    assert multiset(route) == multiset{0} + multiset(a) + multiset{route[k]} + multiset(b);
  }

  /** `analyze_route_quality`: the total distance, the positions holding a
    * perishable stop (found in one enumerating pass), their mean, and how
    * many of them fall in the first half of the route. */
  method AnalyzeRouteQuality(route: seq<nat>, kinds: seq<Kind>, m: Matrix) returns (q: RouteQuality)
    requires IsMatrix(m, |m|) && |kinds| == |m| && InBounds(route, |m|)
    ensures q.totalDistance == Distance(route, m)
    ensures q.perishablePositions == PerishablePositions(route, kinds)
    ensures q.avgPerishablePosition == Average(q.perishablePositions)
    ensures q.perishableDeliveredEarly == CountAtMost(q.perishablePositions, |route| / 2)
  {
    var total := RouteDistance(route, m);
    var positions := [];
    var i := 0;
    while i < |route|
      invariant i <= |route|
      invariant positions + PositionsFrom(route, kinds, i) == PerishablePositions(route, kinds)
    {
      var rest := PositionsFrom(route, kinds, i + 1);
      if route[i] > 0 && kinds[route[i]] == Perishable {
        assert PositionsFrom(route, kinds, i) == [i] + rest;
        assert positions + ([i] + rest) == (positions + [i]) + rest;
        positions := positions + [i];
      } else {
        assert PositionsFrom(route, kinds, i) == rest;
      }
      i := i + 1;
    }
    assert positions == PerishablePositions(route, kinds);
    var avg := Average(positions);
    q := RouteQuality(total, positions, avg, CountAtMost(positions, |route| / 2));
  }
}
