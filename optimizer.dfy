/** `optimize_delivery_route_advanced`: exhaustive search for up to eight
  * locations, the best of three seed routes beyond that, and a final 2-opt
  * refinement for more than three locations. */
module Optimizer {
  import opened Routes
  import opened Scoring
  import opened TwoOpt
  import opened Seeds
  import opened Exhaustive

  /** The largest number of locations searched exhaustively. */
  const ExhaustiveLimit: nat := 8

  /** Every stop but the origin carries a perishable or non-perishable item. */
  ghost predicate DeliveryKinds(kinds: seq<Kind>, n: nat)
    requires |kinds| == n
  {
    forall i :: 1 <= i < n ==> kinds[i] != Current
  }

  /** The three seed routes of the heuristic strategy: a priority-greedy
    * route, the grouped seed, and the 2-opt refinement of a nearest-neighbour
    * route `basic`. */
  ghost predicate ValidSeeds(seeds: seq<seq<nat>>, basic: seq<nat>, n: nat, kinds: seq<Kind>, m: Matrix)
    requires IsMatrix(m, n) && |kinds| == n && n >= 1
  {
    |seeds| == 3
    && IsRoute(seeds[0], n) && InBounds(seeds[0], n) && PriorityGreedy(seeds[0], n, kinds, m)
    && seeds[1] == GroupedSeed(n, kinds, m) && InBounds(seeds[1], n)
    && IsRoute(basic, n) && InBounds(basic, n) && NearestGreedy(basic, n, m)
    && seeds[2] == Refine(basic, m) && InBounds(seeds[2], n)
  }

  /** `chosen` is seed number `pick`, no seed scores lower, and no earlier
    * seed scores the same. */
  ghost predicate FirstBestSeed(chosen: seq<nat>, pick: nat, seeds: seq<seq<nat>>, basic: seq<nat>,
                                n: nat, kinds: seq<Kind>, m: Matrix)
    requires IsMatrix(m, n) && |kinds| == n && n >= 1 && ValidSeeds(seeds, basic, n, kinds, m)
  {
    pick < 3 && chosen == seeds[pick]
    && Score(chosen, kinds, m) <= Score(seeds[0], kinds, m)
    && Score(chosen, kinds, m) <= Score(seeds[1], kinds, m)
    && Score(chosen, kinds, m) <= Score(seeds[2], kinds, m)
    && (pick >= 1 ==> Score(chosen, kinds, m) < Score(seeds[0], kinds, m))
    && (pick == 2 ==> Score(chosen, kinds, m) < Score(seeds[1], kinds, m))
  }

  /** `chosen` is a route of least score over all routes, and it is candidate
    * `at`, the first in enumeration order with that score. */
  ghost predicate FirstLeastCandidate(chosen: seq<nat>, at: nat, n: nat, kinds: seq<Kind>, m: Matrix)
    requires n >= 1 && IsMatrix(m, n) && |kinds| == n
  {
    IsRoute(chosen, n) && InBounds(chosen, n)
    && (forall p :: IsRoute(p, n) && InBounds(p, n) ==> Score(chosen, kinds, m) <= Score(p, kinds, m))
    && at < |Perms(Iota(1, n))| && chosen == Candidate(n, at)
    && (forall k :: 0 <= k < at ==> Score(chosen, kinds, m) < CandidateScore(n, kinds, m, k))
  }

  /** The heuristic branch of `optimize_delivery_route_advanced`: score the
    * three seeds in turn and keep the first one with the strictly lowest
    * score. The first seed always replaces the initial infinite score. */
  method BestOfSeeds(n: nat, kinds: seq<Kind>, m: Matrix)
    returns (best: seq<nat>, bestScore: nat, ghost seeds: seq<seq<nat>>, ghost basic: seq<nat>, ghost pick: nat)
    requires n > ExhaustiveLimit && IsMatrix(m, n) && |kinds| == n
    ensures ValidSeeds(seeds, basic, n, kinds, m)
    ensures FirstBestSeed(best, pick, seeds, basic, n, kinds, m)
    ensures InBounds(best, n) && bestScore == Score(best, kinds, m)
    ensures DeliveryKinds(kinds, n) ==> IsRoute(best, n)
  {
    var route1 := NearestNeighborWithPriority(n, kinds, m);
    var score1 := RouteScore(route1, kinds, m);
    best, bestScore, pick := route1, score1, 0;

    GroupedSeedOrder(n, kinds, m);
    var route2 := GroupedSeed(n, kinds, m);
    var score2 := RouteScore(route2, kinds, m);
    if score2 < bestScore {
      best, bestScore, pick := route2, score2, 1;
    }

    var route0 := NearestNeighborBasic(n, m);
    var route3 := TwoOptImprovement(route0, m);
    var score3 := RouteScore(route3, kinds, m);
    if score3 < bestScore {
      best, bestScore, pick := route3, score3, 2;
    }

    seeds, basic := [route1, route2, route3], route0;
    RefineKeepsRoute(basic, m, n);
    if DeliveryKinds(kinds, n) {
      GroupedSeedIsRoute(n, kinds, m);
    }
  }

  /** `optimize_delivery_route_advanced` on `n` locations. `chosen` is the
    * route picked by the search strategy before the final refinement; on the
    * exhaustive branch it is candidate `at`, the first of least score. */
  method OptimizeDeliveryRoute(n: nat, kinds: seq<Kind>, m: Matrix)
    returns (route: seq<nat>, ghost chosen: seq<nat>, ghost at: nat,
             ghost seeds: seq<seq<nat>>, ghost basic: seq<nat>, ghost pick: nat)
    requires IsMatrix(m, n) && |kinds| == n
    ensures n <= 1 ==> route == Iota(0, n)
    ensures n >= 2 ==> InBounds(chosen, n) && route == (if n > 3 then Refine(chosen, m) else chosen)
    ensures InBounds(route, n)
    ensures 2 <= n <= ExhaustiveLimit ==> FirstLeastCandidate(chosen, at, n, kinds, m)
    ensures n > ExhaustiveLimit ==>
              ValidSeeds(seeds, basic, n, kinds, m) && FirstBestSeed(chosen, pick, seeds, basic, n, kinds, m)
    ensures (n <= ExhaustiveLimit || DeliveryKinds(kinds, n)) ==> IsRoute(route, n)
    ensures n >= 2 ==> Distance(route, m) <= Distance(chosen, m)
    ensures n > 3 ==> LocallyOptimal(route, m)
    ensures n == 2 ==> route == [0, 1]
  {
    chosen, at, seeds, basic, pick := [], 0, [], [], 0;
    if n <= 1 {
      route := Iota(0, n);
      PermutationInBounds(route, n);
      return;
    }
    var best, bestScore;
    if n <= ExhaustiveLimit {
      best, bestScore, at := ExhaustiveSearch(n, kinds, m);
      assert FirstLeastCandidate(best, at, n, kinds, m);
    } else {
      best, bestScore, seeds, basic, pick := BestOfSeeds(n, kinds, m);
    }
    chosen, route := best, best;
    if n > 3 {
      route := TwoOptImprovement(best, m);
      if IsRoute(best, n) {
        RefineKeepsRoute(best, m, n);
      }
    }
    if n == 2 {
      TwoStopRoute(route);
    }
  }

  /** A route through four locations covers three legs. */
  lemma DistanceOfFour(r: seq<nat>, m: Matrix)
    requires IsMatrix(m, |m|) && InBounds(r, |m|) && |r| == 4
    ensures Distance(r, m) == m[r[0]][r[1]] + m[r[1]][r[2]] + m[r[2]][r[3]]
  {
    var t1, t2 := r[1..], r[2..];
    assert t1[1..] == t2 && t1[0] == r[1] && t2[0] == r[2] && t2[1] == r[3];
    assert Distance(t2, m) == m[r[2]][r[3]] + Distance(t2[1..], m);
  }

  /** The score of a route through four locations: its distance, plus 5 or 10
    * when its third or fourth stop is perishable. */
  lemma ScoreOfFour(r: seq<nat>, kinds: seq<Kind>, m: Matrix)
    requires IsMatrix(m, |m|) && |kinds| == |m| && InBounds(r, |m|) && |r| == 4
    ensures Score(r, kinds, m) == Distance(r, m) + (if kinds[r[2]] == Perishable then 5 else 0)
                                                 + (if kinds[r[3]] == Perishable then 10 else 0)
  {
    assert PenaltyFrom(r, kinds, 3) == (if kinds[r[3]] == Perishable then 10 else 0) + PenaltyFrom(r, kinds, 4);
    assert PenaltyFrom(r, kinds, 1) == PenaltyFrom(r, kinds, 2) == (if kinds[r[2]] == Perishable then 5 else 0) + PenaltyFrom(r, kinds, 3);
  }

  /** The legs of a four-location instance on which the score and distance
    * objectives part ways: the origin is close only to stop 3 and the stops
    * lie 1 apart along 1-2-3. Only the legs a route can use are fixed: out of
    * the origin, and between two stops. */
  ghost predicate SplitLegs(m: Matrix)
  {
    IsMatrix(m, 4)
    && m[0][1] == 10 && m[0][2] == 10 && m[0][3] == 1
    && m[1][2] == 1 && m[2][1] == 1 && m[2][3] == 1 && m[3][2] == 1
    && m[1][3] == 10 && m[3][1] == 10
  }

  /** Those legs, with only stop 1 carrying a perishable item. */
  ghost predicate SplitInstance(m: Matrix, kinds: seq<Kind>)
  {
    SplitLegs(m) && |kinds| == 4
    && kinds[1] == Perishable && kinds[2] != Perishable && kinds[3] != Perishable
  }

  /** A symmetric matrix and item kinds that form such an instance. */
  lemma SplitInstanceExists()
    ensures SplitInstance([[0, 10, 10, 1], [10, 0, 1, 10], [10, 1, 0, 1], [1, 10, 1, 0]],
                          [Current, Perishable, NonPerishable, NonPerishable])
  {
  }

  /** A route through four locations is the origin followed by one of the
    * six orderings of stops 1, 2 and 3. */
  lemma StopsOfFour(p: seq<nat>, n: nat)
    requires n == 4 && IsRoute(p, n)
    ensures |p| == 4 && p[0] == 0
    ensures || (p[1] == 1 && p[2] == 2 && p[3] == 3) || (p[1] == 1 && p[2] == 3 && p[3] == 2)
            || (p[1] == 2 && p[2] == 1 && p[3] == 3) || (p[1] == 2 && p[2] == 3 && p[3] == 1)
            || (p[1] == 3 && p[2] == 1 && p[3] == 2) || (p[1] == 3 && p[2] == 2 && p[3] == 1)
  {
    PermutationInBounds(p, n);
    RouteIsCandidate(p, n);
    var s := Iota(1, n);
    assert s == [s[0], s[1], s[2]];
    PermsOfThree(s[0], s[1], s[2]);
    var k :| 0 <= k < |Perms(s)| && p == [0] + Perms(s)[k];
    var q := Perms(s)[k];
    assert p[1] == q[0] && p[2] == q[1] && p[3] == q[2];
    assert s[0] == 1 && s[1] == 2 && s[2] == 3;
    if k == 0 {
      assert q == [1, 2, 3];
    } else if k == 1 {
      assert q == [1, 3, 2];
    } else if k == 2 {
      assert q == [2, 1, 3];
    } else if k == 3 {
      assert q == [2, 3, 1];
    } else if k == 4 {
      assert q == [3, 1, 2];
    } else {
      assert q == [3, 2, 1];
    }
  }

  /** `[0, 1, 2, 3]` is the only route of least score in the instance, 12. */
  lemma SplitLeastScore(p: seq<nat>, m: Matrix, kinds: seq<Kind>)
    requires SplitInstance(m, kinds) && IsRoute(p, 4) && InBounds(p, 4)
    ensures Score(p, kinds, m) >= 12
    ensures Score(p, kinds, m) == 12 <==> p == [0, 1, 2, 3]
  {
    StopsOfFour(p, 4);
    DistanceOfFour(p, m);
    ScoreOfFour(p, kinds, m);
    if p[1] == 1 && p[2] == 2 && p[3] == 3 {
      assert p == [0, 1, 2, 3];
    }
  }

  /** On a route through four locations, the three reversals of the scan and
    * their distances. */
  lemma ReversalsOfFour(r: seq<nat>, m: Matrix)
    requires IsMatrix(m, |m|) && InBounds(r, |m|) && |r| == 4
    ensures InBounds(ReverseSegment(r, 1, 2), |m|) && InBounds(ReverseSegment(r, 1, 3), |m|)
            && InBounds(ReverseSegment(r, 2, 3), |m|)
    ensures Distance(ReverseSegment(r, 1, 2), m) == m[r[0]][r[2]] + m[r[2]][r[1]] + m[r[1]][r[3]]
    ensures Distance(ReverseSegment(r, 1, 3), m) == m[r[0]][r[3]] + m[r[3]][r[2]] + m[r[2]][r[1]]
    ensures Distance(ReverseSegment(r, 2, 3), m) == m[r[0]][r[1]] + m[r[1]][r[3]] + m[r[3]][r[2]]
  {
    ReverseSegmentInBounds(r, 1, 2, |m|);
    ReverseSegmentInBounds(r, 1, 3, |m|);
    ReverseSegmentInBounds(r, 2, 3, |m|);
    DistanceOfFour(ReverseSegment(r, 1, 2), m);
    DistanceOfFour(ReverseSegment(r, 1, 3), m);
    DistanceOfFour(ReverseSegment(r, 2, 3), m);
  }

  /** On a route through four locations the scan tries the reversals
    * `(1, 2)`, `(1, 3)`, `(2, 3)` in that order. */
  lemma ScanOfFour(r: seq<nat>, m: Matrix)
    requires IsMatrix(m, |m|) && InBounds(r, |m|) && |r| == 4
    ensures InBounds(ReverseSegment(r, 1, 2), |m|) && InBounds(ReverseSegment(r, 1, 3), |m|)
            && InBounds(ReverseSegment(r, 2, 3), |m|)
    ensures ScanFrom(r, m, 1, 2) ==
              if Distance(ReverseSegment(r, 1, 2), m) < Distance(r, m) then Some((1, 2))
              else if Distance(ReverseSegment(r, 1, 3), m) < Distance(r, m) then Some((1, 3))
              else if Distance(ReverseSegment(r, 2, 3), m) < Distance(r, m) then Some((2, 3))
              else None
  {
    ReversalsOfFour(r, m);
    assert ScanFrom(r, m, 2, 4) == ScanFrom(r, m, 3, 4) == None;
    assert ScanFrom(r, m, 1, 4) == ScanFrom(r, m, 2, 3);
  }

  /** Reversing positions 1..3 of `[0, 1, 2, 3]`. */
  lemma SplitReversal()
    ensures ReverseSegment([0, 1, 2, 3], 1, 3) == [0, 3, 2, 1]
  {
    var s := ReverseSegment([0, 1, 2, 3], 1, 3);
    assert s[1] == 3 && s[2] == 2 && s[3] == 1;
  }

  /** The first scan of `[0, 1, 2, 3]` (distance 12) finds that reversing
    * positions 1..3 shortens it to 3. */
  lemma SplitFirstScan(r: seq<nat>, m: Matrix)
    requires SplitLegs(m) && |r| == 4 && r[0] == 0 && r[1] == 1 && r[2] == 2 && r[3] == 3
    ensures ScanFrom(r, m, 1, 2) == Some((1, 3))
  {
    DistanceOfFour(r, m);
    ScanOfFour(r, m);
    ReversalsOfFour(r, m);
    assert Distance(r, m) == 12;
    assert Distance(ReverseSegment(r, 1, 2), m) == 21;
    assert Distance(ReverseSegment(r, 1, 3), m) == 3;
  }

  /** No reversal shortens `[0, 3, 2, 1]` (distance 3): the three reversals
    * give distances 21, 12 and 12. */
  lemma SplitSecondScan(r: seq<nat>, m: Matrix)
    requires SplitLegs(m) && |r| == 4 && r[0] == 0 && r[1] == 3 && r[2] == 2 && r[3] == 1
    ensures ScanFrom(r, m, 1, 2) == None
  {
    DistanceOfFour(r, m);
    ScanOfFour(r, m);
  }

  /** The final 2-opt pass takes `[0, 1, 2, 3]` to `[0, 3, 2, 1]` in one
    * reversal, after which no reversal shortens the route. */
  lemma SplitRefine(m: Matrix)
    requires SplitLegs(m)
    ensures Refine([0, 1, 2, 3], m) == [0, 3, 2, 1]
  {
    SplitFirstScan([0, 1, 2, 3], m);
    SplitReversal();
    SplitSecondScan([0, 3, 2, 1], m);
  }

  /** The search ranks routes by score but the final 2-opt pass ranks them by
    * distance alone, so for more than three locations the route returned can
    * score worse than the one the search chose: here the exhaustive branch
    * must choose `[0, 1, 2, 3]` (score 12), and the refinement returns the
    * shorter `[0, 3, 2, 1]` (distance 3, score 13). */
  lemma FinalPassCanRaiseScore(chosen: seq<nat>, m: Matrix, kinds: seq<Kind>)
    requires SplitInstance(m, kinds) && IsRoute(chosen, 4) && InBounds(chosen, 4)
    requires forall p :: IsRoute(p, 4) && InBounds(p, 4) ==> Score(chosen, kinds, m) <= Score(p, kinds, m)
    ensures chosen == [0, 1, 2, 3] && Refine(chosen, m) == [0, 3, 2, 1]
    ensures InBounds(Refine(chosen, m), 4)
    ensures Distance(chosen, m) == 12 && Distance(Refine(chosen, m), m) == 3
    ensures Score(chosen, kinds, m) == 12 && Score(Refine(chosen, m), kinds, m) == 13
  {
    var best := Iota(0, 4);
    PermutationInBounds(best, 4);
    assert best == [0, 1, 2, 3];
    SplitLeastScore(best, m, kinds);
    assert Score(chosen, kinds, m) <= Score(best, kinds, m) == 12;
    SplitLeastScore(chosen, m, kinds);
    SplitRefine(m);
    RefineCorrect(chosen, m);
    var worse := Refine(chosen, m);
    DistanceOfFour(chosen, m);
    DistanceOfFour(worse, m);
    ScoreOfFour(worse, kinds, m);
  }
}
