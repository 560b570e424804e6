/** The route scorer: total travel distance of a route and the
  * priority-adjusted score that adds a lateness penalty for perishable stops. */
module Scoring {
  import opened Routes

  /** Penalty, in distance units, for each position a perishable stop is delayed. */
  const PenaltyPerPosition: nat := 5

  /** Sum of the matrix entries between consecutive stops of `r`. */
  function Distance(r: seq<nat>, m: Matrix): nat
    requires IsMatrix(m, |m|) && InBounds(r, |m|)
  {
    if |r| <= 1 then 0 else m[r[0]][r[1]] + Distance(r[1..], m)
  }

  /** Extending a route by one stop adds exactly the one new leg. */
  lemma {:induction false} DistanceAppend(r: seq<nat>, x: nat, m: Matrix)
    requires IsMatrix(m, |m|) && InBounds(r, |m|) && x < |m| && |r| > 0
    ensures Distance(r + [x], m) == Distance(r, m) + m[r[|r| - 1]][x]
  {
    if |r| > 1 {
      assert (r + [x])[1..] == r[1..] + [x];
      DistanceAppend(r[1..], x, m);
    }
  }

  /** `calculate_route_distance`: accumulates the legs front to back. */
  method RouteDistance(route: seq<nat>, m: Matrix) returns (total: nat)
    requires IsMatrix(m, |m|) && InBounds(route, |m|)
    ensures total == Distance(route, m)
  {
    total := 0;
    var i := 0;
    while i + 1 < |route|
      invariant |route| > 0 ==> i < |route| && total == Distance(route[..i + 1], m)
      invariant |route| == 0 ==> total == 0
    {
      assert route[..i + 2] == route[..i + 1] + [route[i + 1]];
      DistanceAppend(route[..i + 1], route[i + 1], m);
      total := total + m[route[i]][route[i + 1]];
      i := i + 1;
    }
    assert |route| > 0 ==> route[..i + 1] == route;
  }

  /** What position `i` of `r` adds to the penalty: `(i - 1) * 5` for a
    * perishable stop after the origin, nothing otherwise. */
  function PositionPenalty(r: seq<nat>, kinds: seq<Kind>, i: nat): nat
    requires InBounds(r, |kinds|) && i < |r|
  {
    if i >= 1 && kinds[r[i]] == Perishable then (i - 1) * PenaltyPerPosition else 0
  }

  /** Penalty of the positions `i, i + 1, ..., |r| - 1`. */
  function PenaltyFrom(r: seq<nat>, kinds: seq<Kind>, i: nat): nat
    requires InBounds(r, |kinds|)
    decreases |r| - i
  {
    if i >= |r| then 0 else PositionPenalty(r, kinds, i) + PenaltyFrom(r, kinds, i + 1)
  }

  /** The lateness penalty of a route; the origin position is skipped. */
  function Penalty(r: seq<nat>, kinds: seq<Kind>): nat
    requires InBounds(r, |kinds|)
  {
    PenaltyFrom(r, kinds, 1)
  }

  /** The objective every search strategy compares routes by. */
  function Score(r: seq<nat>, kinds: seq<Kind>, m: Matrix): nat
    requires IsMatrix(m, |m|) && |kinds| == |m| && InBounds(r, |m|)
  {
    Distance(r, m) + Penalty(r, kinds)
  }

  /** `calculate_route_score_with_priority`: the distance, then the penalty
    * accumulated over positions `1..|route|-1`. */
  method RouteScore(route: seq<nat>, kinds: seq<Kind>, m: Matrix) returns (score: nat)
    requires IsMatrix(m, |m|) && |kinds| == |m| && InBounds(route, |m|)
    ensures score == Score(route, kinds, m)
    ensures score >= Distance(route, m)
  {
    var total := RouteDistance(route, m);
    var penalty := 0;
    var i := 1;
    while i < |route|
      invariant 1 <= i
      invariant penalty + PenaltyFrom(route, kinds, i) == Penalty(route, kinds)
    {
      if kinds[route[i]] == Perishable {
        penalty := penalty + (i - 1) * PenaltyPerPosition;
      }
      i := i + 1;
    }
    score := total + penalty;
  }

  lemma {:induction false} PenaltyFromDependsOnlyOnKinds(r: seq<nat>, kinds: seq<Kind>, r2: seq<nat>, kinds2: seq<Kind>, i: nat)
    requires InBounds(r, |kinds|) && InBounds(r2, |kinds2|) && |r| == |r2| && i >= 1
    requires forall k :: 1 <= k < |r| ==> kinds[r[k]] == kinds2[r2[k]]
    ensures PenaltyFrom(r, kinds, i) == PenaltyFrom(r2, kinds2, i)
    decreases |r| - i
  {
    if i < |r| {
      PenaltyFromDependsOnlyOnKinds(r, kinds, r2, kinds2, i + 1);
    }
  }

  /** The penalty sees only the kinds at the positions after the origin: the
    * origin stop and its kind contribute nothing. */
  lemma PenaltyIgnoresOrigin(r: seq<nat>, kinds: seq<Kind>, r2: seq<nat>, kinds2: seq<Kind>)
    requires InBounds(r, |kinds|) && InBounds(r2, |kinds2|) && |r| == |r2|
    requires forall k :: 1 <= k < |r| ==> kinds[r[k]] == kinds2[r2[k]]
    ensures Penalty(r, kinds) == Penalty(r2, kinds2)
  {
    PenaltyFromDependsOnlyOnKinds(r, kinds, r2, kinds2, 1);
  }

  lemma {:induction false} NoPerishableNoPenaltyFrom(r: seq<nat>, kinds: seq<Kind>, i: nat)
    requires InBounds(r, |kinds|)
    requires forall k :: 1 <= k < |r| ==> kinds[r[k]] != Perishable
    ensures PenaltyFrom(r, kinds, i) == 0
    decreases |r| - i
  {
    if i < |r| {
      NoPerishableNoPenaltyFrom(r, kinds, i + 1);
    }
  }

  /** Without a perishable stop after the origin the score is the distance. */
  lemma NoPerishableScoreIsDistance(r: seq<nat>, kinds: seq<Kind>, m: Matrix)
    requires IsMatrix(m, |m|) && |kinds| == |m| && InBounds(r, |m|)
    requires forall k :: 1 <= k < |r| ==> kinds[r[k]] != Perishable
    ensures Score(r, kinds, m) == Distance(r, m)
  {
    NoPerishableNoPenaltyFrom(r, kinds, 1);
  }

  /** `r` with the stops at positions `a` and `b` exchanged. */
  function Swap(r: seq<nat>, a: nat, b: nat): seq<nat>
    requires a < |r| && b < |r|
  {
    r[a := r[b]][b := r[a]]
  }

  lemma {:induction false} SwapPenaltyFrom(r: seq<nat>, kinds: seq<Kind>, a: nat, b: nat, i: nat)
    requires InBounds(r, |kinds|) && 1 <= a < b < |r|
    requires kinds[r[a]] != Perishable && kinds[r[b]] == Perishable
    ensures InBounds(Swap(r, a, b), |kinds|)
    ensures PenaltyFrom(r, kinds, i) == PenaltyFrom(Swap(r, a, b), kinds, i)
      + (if i <= a then (b - a) * PenaltyPerPosition else if i <= b then (b - 1) * PenaltyPerPosition else 0)
    decreases |r| - i
  {
    if i < |r| {
      SwapPenaltyFrom(r, kinds, a, b, i + 1);
    }
  }

  /** Priority pressure: bringing a perishable stop forward from position `b`
    * to position `a` (in exchange for a non-perishable one) lowers the
    * penalty by exactly `5 * (b - a)`; with equal distances the earlier
    * delivery scores strictly better. */
  lemma PriorityPressure(r: seq<nat>, kinds: seq<Kind>, m: Matrix, a: nat, b: nat)
    requires IsMatrix(m, |m|) && |kinds| == |m| && InBounds(r, |m|) && 1 <= a < b < |r|
    requires kinds[r[a]] != Perishable && kinds[r[b]] == Perishable
    ensures InBounds(Swap(r, a, b), |m|)
    ensures Penalty(r, kinds) == Penalty(Swap(r, a, b), kinds) + (b - a) * PenaltyPerPosition
    ensures Distance(r, m) == Distance(Swap(r, a, b), m) ==>
              Score(Swap(r, a, b), kinds, m) < Score(r, kinds, m)
  {
    SwapPenaltyFrom(r, kinds, a, b, 1);
  }
}
