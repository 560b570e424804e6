/** The seed constructors: the priority-aware nearest neighbour, the plain
  * nearest neighbour, and the perishable-first grouping by distance from
  * the origin. */
module Seeds {
  import opened Routes
  import opened Scoring

  /** Bonus per still-pending perishable stop for choosing a perishable stop. */
  const PerishableBonus: int := 10
  /** Surcharge for choosing a non-perishable stop while perishables are pending. */
  const NonPerishableDelay: int := 15

  // ---------------------------------------------------------------- bookkeeping

  /** The stops other than the origin not among the first `k` of `route`:
    * the `unvisited` set just before position `k` is chosen. */
  ghost function Remaining(route: seq<nat>, k: nat, n: nat): set<nat>
    requires k <= |route|
  {
    set v | v in IotaSet(1, n) && v !in route[..k]
  }

  lemma MultisetRemove(s: set<nat>, x: nat)
    requires x in s
    ensures multiset(s - {x}) + multiset{x} == multiset(s)
  {
  }

  /** Appending a stop taken from `unvisited` keeps the route and the
    * unvisited set together equal to all the stops. */
  lemma {:induction false} StepKeepsStops(route: seq<nat>, unvisited: set<nat>, x: nat, n: nat)
    requires x in unvisited
    requires multiset(route) + multiset(unvisited) == multiset(Iota(0, n))
    requires unvisited == Remaining(route, |route|, n)
    ensures multiset(route + [x]) + multiset(unvisited - {x}) == multiset(Iota(0, n))
    ensures unvisited - {x} == Remaining(route + [x], |route + [x]|, n)
  {
    MultisetRemove(unvisited, x);
    assert multiset(route + [x]) == multiset(route) + multiset{x};
    assert (route + [x])[..|route + [x]|] == route + [x];
    assert route[..|route|] == route;
  }

  /** The state before the first choice: the route is `[0]` and every other
    * stop is unvisited. */
  lemma StartState(n: nat)
    requires n >= 1
    ensures multiset([0]) + multiset(IotaSet(1, n)) == multiset(Iota(0, n))
    ensures IotaSet(1, n) == Remaining([0], 1, n)
    ensures forall v :: v in IotaSet(1, n) <==> 1 <= v < n
  {
    IotaAsSet(1, n);
    assert Iota(0, n) == [0] + Iota(1, n);
  }


  // ---------------------------------------------------------------- priority greedy

  /** The perishable stops among `pending`. */
  function PendingPerishables(kinds: seq<Kind>, pending: set<nat>): set<nat>
  {
    set v | v in pending && v < |kinds| && kinds[v] == Perishable
  }

  /** The adjusted cost of moving from `cur` to `v` while `pending` is unvisited. */
  function StepScore(m: Matrix, kinds: seq<Kind>, pending: set<nat>, cur: nat, v: nat): int
    requires IsMatrix(m, |m|) && |kinds| == |m| && cur < |m| && v < |m|
  {
    var distance := m[cur][v];
    var waiting := PendingPerishables(kinds, pending);
    if kinds[v] == Perishable then distance - PerishableBonus * |waiting|
    else if waiting != {} then distance + NonPerishableDelay
    else distance
  }

  /** Position `k` holds a stop of least adjusted cost among those unvisited
    * before it was chosen. */
  ghost predicate PriorityStep(route: seq<nat>, k: nat, n: nat, kinds: seq<Kind>, m: Matrix)
    requires IsMatrix(m, n) && |kinds| == n && InBounds(route, n) && 1 <= k < |route|
  {
    var pending := Remaining(route, k, n);
    forall v :: v in pending && v < n ==>
      StepScore(m, kinds, pending, route[k - 1], route[k]) <= StepScore(m, kinds, pending, route[k - 1], v)
  }

  ghost predicate PriorityGreedy(route: seq<nat>, n: nat, kinds: seq<Kind>, m: Matrix)
    requires IsMatrix(m, n) && |kinds| == n && InBounds(route, n)
  {
    forall k :: 1 <= k < |route| ==> PriorityStep(route, k, n, kinds, m)
  }

  /** The inner `for next_pos in unvisited` loop of
    * `nearest_neighbor_with_priority`: some stop of least adjusted cost. */
  method PickByPriority(current: nat, unvisited: set<nat>, perishable: set<nat>, n: nat, kinds: seq<Kind>, m: Matrix)
    returns (bestNext: nat)
    requires IsMatrix(m, n) && |kinds| == n && current < n && unvisited != {}
    requires forall v :: v in unvisited ==> 1 <= v < n
    requires forall v :: v in perishable <==> 1 <= v < n && kinds[v] == Perishable
    ensures bestNext in unvisited
    ensures forall v :: v in unvisited ==>
              StepScore(m, kinds, unvisited, current, bestNext) <= StepScore(m, kinds, unvisited, current, v)
  {
    assert perishable * unvisited == PendingPerishables(kinds, unvisited);
    var bestScore: int := 0;
    var found := false;
    bestNext := 0;
    var todo := unvisited;
    while todo != {}
      invariant todo <= unvisited
      invariant !found ==> todo == unvisited
      invariant found ==> bestNext in unvisited && bestScore == StepScore(m, kinds, unvisited, current, bestNext)
      invariant found ==> forall w :: w in unvisited - todo ==> bestScore <= StepScore(m, kinds, unvisited, current, w)
      decreases todo
    {
      var nextPos :| nextPos in todo;
      var score: int := m[current][nextPos];
      if nextPos in perishable {
        var remainingPerishable := |perishable * unvisited|;
        score := score - PerishableBonus * remainingPerishable;
      } else if perishable * unvisited != {} {
        score := score + NonPerishableDelay;
      }
      if !found || score < bestScore {
        found, bestScore, bestNext := true, score, nextPos;
      }
      todo := todo - {nextPos};
    }
  }

  /** Appending a least-cost choice keeps every earlier choice valid. */
  lemma {:induction false} ExtendPriorityGreedy(route: seq<nat>, x: nat, n: nat, kinds: seq<Kind>, m: Matrix)
    requires IsMatrix(m, n) && |kinds| == n && InBounds(route, n) && x < n && |route| >= 1
    requires PriorityGreedy(route, n, kinds, m)
    requires forall v :: v in Remaining(route, |route|, n) ==>
      StepScore(m, kinds, Remaining(route, |route|, n), route[|route| - 1], x)
        <= StepScore(m, kinds, Remaining(route, |route|, n), route[|route| - 1], v)
    ensures InBounds(route + [x], n) && PriorityGreedy(route + [x], n, kinds, m)
  {
    var r := route + [x];
    forall k | 1 <= k < |r| ensures PriorityStep(r, k, n, kinds, m) {
      assert r[..k] == route[..k];
      assert Remaining(r, k, n) == Remaining(route, k, n);
      if k < |route| {
        assert PriorityStep(route, k, n, kinds, m);
      }
    }
  }

  /** `nearest_neighbor_with_priority`. */
  method NearestNeighborWithPriority(n: nat, kinds: seq<Kind>, m: Matrix) returns (route: seq<nat>)
    requires IsMatrix(m, n) && |kinds| == n
    ensures n <= 1 ==> route == Iota(0, n)
    ensures IsRoute(route, n) && InBounds(route, n)
    ensures PriorityGreedy(route, n, kinds, m)
  {
    if n <= 1 {
      route := Iota(0, n);
      PermutationInBounds(route, n);
      return;
    }
    var current := 0;
    var unvisited := IotaSet(1, n);
    route := [current];
    StartState(n);
    var perishable := set i | i in IotaSet(1, n) && kinds[i] == Perishable;
    while unvisited != {}
      invariant |route| >= 1 && route[0] == 0 && current == route[|route| - 1]
      invariant InBounds(route, n)
      invariant unvisited == Remaining(route, |route|, n)
      invariant forall v :: v in unvisited ==> 1 <= v < n
      invariant multiset(route) + multiset(unvisited) == multiset(Iota(0, n))
      invariant PriorityGreedy(route, n, kinds, m)
      decreases unvisited
    {
      var bestNext := PickByPriority(current, unvisited, perishable, n, kinds, m);
      ExtendPriorityGreedy(route, bestNext, n, kinds, m);
      StepKeepsStops(route, unvisited, bestNext, n);
      route := route + [bestNext];
      unvisited := unvisited - {bestNext};
      current := bestNext;
    }
    assert multiset(unvisited) == multiset{};
    PermutationInBounds(route, n);
  }

  // ---------------------------------------------------------------- plain greedy

  /** Position `k` holds a stop nearest to its predecessor among those
    * unvisited before it was chosen. */
  ghost predicate NearestStep(route: seq<nat>, k: nat, n: nat, m: Matrix)
    requires IsMatrix(m, n) && InBounds(route, n) && 1 <= k < |route|
  {
    forall v :: v in Remaining(route, k, n) && v < n ==> m[route[k - 1]][route[k]] <= m[route[k - 1]][v]
  }

  ghost predicate NearestGreedy(route: seq<nat>, n: nat, m: Matrix)
    requires IsMatrix(m, n) && InBounds(route, n)
  {
    forall k :: 1 <= k < |route| ==> NearestStep(route, k, n, m)
  }

  /** The `min` step of `nearest_neighbor_basic`: one pass over `unvisited`
    * finding a stop nearest to `current`. */
  method Nearest(current: nat, unvisited: set<nat>, n: nat, m: Matrix) returns (nearest: nat)
    requires IsMatrix(m, n) && current < n && unvisited != {}
    requires forall v :: v in unvisited ==> v < n
    ensures nearest in unvisited
    ensures forall v :: v in unvisited ==> m[current][nearest] <= m[current][v]
  {
    var todo := unvisited;
    nearest :| nearest in todo;
    todo := todo - {nearest};
    while todo != {}
      invariant todo <= unvisited && nearest in unvisited
      invariant forall w :: w in unvisited - todo ==> m[current][nearest] <= m[current][w]
      decreases todo
    {
      var x :| x in todo;
      if m[current][x] < m[current][nearest] {
        nearest := x;
      }
      todo := todo - {x};
    }
  }

  lemma {:induction false} ExtendNearestGreedy(route: seq<nat>, x: nat, n: nat, m: Matrix)
    requires IsMatrix(m, n) && InBounds(route, n) && x < n && |route| >= 1
    requires NearestGreedy(route, n, m)
    requires forall v :: v in Remaining(route, |route|, n) ==> m[route[|route| - 1]][x] <= m[route[|route| - 1]][v]
    ensures InBounds(route + [x], n) && NearestGreedy(route + [x], n, m)
  {
    var r := route + [x];
    forall k | 1 <= k < |r| ensures NearestStep(r, k, n, m) {
      assert r[..k] == route[..k];
      assert Remaining(r, k, n) == Remaining(route, k, n);
      if k < |route| {
        assert NearestStep(route, k, n, m);
      }
    }
  }

  /** `nearest_neighbor_basic`. */
  method NearestNeighborBasic(n: nat, m: Matrix) returns (route: seq<nat>)
    requires IsMatrix(m, n)
    ensures n <= 1 ==> route == Iota(0, n)
    ensures IsRoute(route, n) && InBounds(route, n)
    ensures NearestGreedy(route, n, m)
  {
    if n <= 1 {
      route := Iota(0, n);
      PermutationInBounds(route, n);
      return;
    }
    var current := 0;
    var unvisited := IotaSet(1, n);
    route := [current];
    StartState(n);
    while unvisited != {}
      invariant |route| >= 1 && route[0] == 0 && current == route[|route| - 1]
      invariant InBounds(route, n)
      invariant unvisited == Remaining(route, |route|, n)
      invariant forall v :: v in unvisited ==> 1 <= v < n
      invariant multiset(route) + multiset(unvisited) == multiset(Iota(0, n))
      invariant NearestGreedy(route, n, m)
      decreases unvisited
    {
      var nearest := Nearest(current, unvisited, n, m);
      ExtendNearestGreedy(route, nearest, n, m);
      StepKeepsStops(route, unvisited, nearest, n);
      route := route + [nearest];
      unvisited := unvisited - {nearest};
      current := nearest;
    }
    assert multiset(unvisited) == multiset{};
    PermutationInBounds(route, n);
  }

  // ---------------------------------------------------------------- grouped seed

  /** The stops of `s` whose item has the given kind, in their order in `s`. */
  function OfKind(s: seq<nat>, kinds: seq<Kind>, kind: Kind): (r: seq<nat>)
    requires InBounds(s, |kinds|)
    ensures forall x :: x in r <==> x in s && kinds[x] == kind
    ensures InBounds(r, |kinds|)
  {
    if s == [] then []
    else
      var rest := OfKind(s[1..], kinds, kind);
      assert forall x :: x in s[1..] ==> x in s;
      if kinds[s[0]] == kind then [s[0]] + rest else rest
  }

  /** Filtering keeps the order of the stops. */
  lemma {:induction false} OfKindIncreasing(s: seq<nat>, kinds: seq<Kind>, kind: Kind)
    requires InBounds(s, |kinds|) && Increasing(s)
    ensures Increasing(OfKind(s, kinds, kind))
  {
    if s != [] {
      IncreasingTail(s);
      OfKindIncreasing(s[1..], kinds, kind);
      var rest := OfKind(s[1..], kinds, kind);
      var r := OfKind(s, kinds, kind);
      if kinds[s[0]] == kind {
        assert r == [s[0]] + rest;
        forall a, b | 0 <= a < b < |r| ensures r[a] < r[b] {
          if a == 0 {
            assert r[b] in s[1..];
            var k :| 0 <= k < |s| - 1 && s[1..][k] == r[b];
            assert s[0] < s[k + 1];
          } else {
            assert r[a] == rest[a - 1] && r[b] == rest[b - 1];
          }
        }
      }
    }
  }

  /** With no other kind present, the perishable and non-perishable stops
    * together are all of `s`. */
  lemma {:induction false} SplitByKind(s: seq<nat>, kinds: seq<Kind>)
    requires InBounds(s, |kinds|)
    requires forall k :: 0 <= k < |s| ==> kinds[s[k]] != Current
    ensures multiset(OfKind(s, kinds, Perishable)) + multiset(OfKind(s, kinds, NonPerishable)) == multiset(s)
  {
    if s != [] {
      SplitByKind(s[1..], kinds);
      assert s == [s[0]] + s[1..];
    }
  }

  /** Sort key: distance from the origin, then (as a stable sort of an
    * ascending list leaves it) the stop index. */
  ghost predicate OriginOrder(x: nat, y: nat, m: Matrix)
    requires |m| > 0 && x < |m[0]| && y < |m[0]|
  {
    m[0][x] < m[0][y] || (m[0][x] == m[0][y] && x < y)
  }

  ghost predicate SortedFromOrigin(s: seq<nat>, m: Matrix)
    requires |m| > 0 && InBounds(s, |m[0]|)
  {
    forall a, b :: 0 <= a < b < |s| ==> OriginOrder(s[a], s[b], m)
  }

  /** Insert `x` before the first element not nearer to the origin. */
  function InsertByOrigin(x: nat, s: seq<nat>, m: Matrix): (r: seq<nat>)
    requires |m| > 0 && x < |m[0]| && InBounds(s, |m[0]|)
    ensures |r| == |s| + 1 && multiset(r) == multiset(s) + multiset{x}
    ensures forall y :: y in r <==> y == x || y in s
    ensures InBounds(r, |m[0]|)
  {
    if s == [] || m[0][x] <= m[0][s[0]] then [x] + s
    else
      assert s == [s[0]] + s[1..];
      [s[0]] + InsertByOrigin(x, s[1..], m)
  }

  /** The stops of `s` sorted by distance from the origin; stops at equal
    * distance keep their order in `s` (a stable sort). */
  function SortByOrigin(s: seq<nat>, m: Matrix): (r: seq<nat>)
    requires |m| > 0 && InBounds(s, |m[0]|)
    ensures |r| == |s| && multiset(r) == multiset(s) && InBounds(r, |m[0]|)
  {
    if s == [] then []
    else
      assert s == [s[0]] + s[1..];
      InsertByOrigin(s[0], SortByOrigin(s[1..], m), m)
  }

  lemma {:induction false} InsertKeepsOrder(x: nat, s: seq<nat>, m: Matrix)
    requires |m| > 0 && x < |m[0]| && InBounds(s, |m[0]|)
    requires SortedFromOrigin(s, m) && forall y :: y in s ==> x < y
    ensures SortedFromOrigin(InsertByOrigin(x, s, m), m)
  {
    if s == [] || m[0][x] <= m[0][s[0]] {
      var r := [x] + s;
      forall a, b | 0 <= a < b < |r| ensures OriginOrder(r[a], r[b], m) {
        if a == 0 {
          assert r[b] in s;
          if b > 1 {
            assert OriginOrder(s[0], s[b - 1], m);
          }
        } else {
          assert OriginOrder(s[a - 1], s[b - 1], m);
        }
      }
    } else {
      assert forall y :: y in s[1..] ==> y in s;
      InsertKeepsOrder(x, s[1..], m);
      var t := InsertByOrigin(x, s[1..], m);
      var r := [s[0]] + t;
      forall a, b | 0 <= a < b < |r| ensures OriginOrder(r[a], r[b], m) {
        if a == 0 {
          assert r[b] in t;
          if r[b] != x {
            var k :| 1 <= k < |s| && s[k] == r[b];
            assert OriginOrder(s[0], s[k], m);
          }
        } else {
          assert OriginOrder(t[a - 1], t[b - 1], m);
        }
      }
    }
  }

  /** Sorting an ascending list of stops orders them by distance from the
    * origin, ties in ascending index order. */
  lemma {:induction false} SortOrders(s: seq<nat>, m: Matrix)
    requires |m| > 0 && InBounds(s, |m[0]|) && Increasing(s)
    ensures SortedFromOrigin(SortByOrigin(s, m), m)
  {
    if s != [] {
      SortOrders(s[1..], m);
      forall y | y in SortByOrigin(s[1..], m) ensures s[0] < y {
        assert y in multiset(SortByOrigin(s[1..], m));
        var k :| 1 <= k < |s| && s[k] == y;
      }
      InsertKeepsOrder(s[0], SortByOrigin(s[1..], m), m);
    }
  }

  /** One group of the grouped seed: the stops `1..n-1` of one kind, sorted
    * by distance from the origin. */
  function Group(n: nat, kinds: seq<Kind>, m: Matrix, kind: Kind): seq<nat>
    requires IsMatrix(m, n) && |kinds| == n && n >= 1
  {
    SortByOrigin(OfKind(Iota(1, n), kinds, kind), m)
  }

  /** A group holds exactly the stops of its kind, each once, ordered by
    * distance from the origin and then by index. */
  lemma GroupFacts(n: nat, kinds: seq<Kind>, m: Matrix, kind: Kind)
    requires IsMatrix(m, n) && |kinds| == n && n >= 1
    ensures multiset(Group(n, kinds, m, kind)) == multiset(OfKind(Iota(1, n), kinds, kind))
    ensures InBounds(Group(n, kinds, m, kind), n)
    ensures forall x :: x in Group(n, kinds, m, kind) <==> 1 <= x < n && kinds[x] == kind
    ensures SortedFromOrigin(Group(n, kinds, m, kind), m)
  {
    var stops := Iota(1, n);
    var g := Group(n, kinds, m, kind);
    assert Increasing(stops);
    IotaMember(1, n);
    OfKindIncreasing(stops, kinds, kind);
    SortOrders(OfKind(stops, kinds, kind), m);
    forall x ensures x in g <==> x in stops && kinds[x] == kind {
      assert x in g <==> x in multiset(g);
    }
  }

  /** The grouped seed: the origin, the perishable stops, then the
    * non-perishable stops, each group sorted by distance from the origin. */
  function GroupedSeed(n: nat, kinds: seq<Kind>, m: Matrix): seq<nat>
    requires IsMatrix(m, n) && |kinds| == n && n >= 1
  {
    [0] + (Group(n, kinds, m, Perishable) + Group(n, kinds, m, NonPerishable))
  }

  /** When every stop but the origin is perishable or non-perishable, the
    * grouped seed is a route. */
  lemma GroupedSeedIsRoute(n: nat, kinds: seq<Kind>, m: Matrix)
    requires IsMatrix(m, n) && |kinds| == n && n >= 1
    requires forall i :: 1 <= i < n ==> kinds[i] != Current
    ensures IsRoute(GroupedSeed(n, kinds, m), n) && InBounds(GroupedSeed(n, kinds, m), n)
  {
    var stops := Iota(1, n);
    SplitByKind(stops, kinds);
    GroupFacts(n, kinds, m, Perishable);
    GroupFacts(n, kinds, m, NonPerishable);
    var r := GroupedSeed(n, kinds, m);
    var p, o := Group(n, kinds, m, Perishable), Group(n, kinds, m, NonPerishable);
    assert r[1..] == p + o;
    assert multiset(r[1..]) == multiset(p) + multiset(o);
    RouteSplit(r, n);
    PermutationInBounds(r, n);
  }

  /** Stop `x` comes before stop `y` in the grouped seed. */
  ghost predicate SeedPrecedes(x: nat, y: nat, kinds: seq<Kind>, m: Matrix)
    requires |m| > 0 && x < |kinds| && y < |kinds| && x < |m[0]| && y < |m[0]|
  {
    (kinds[x] == Perishable && kinds[y] == NonPerishable)
    || (kinds[x] == kinds[y] && OriginOrder(x, y, m))
  }

  /** The grouped seed starts at the origin, lists exactly the perishable and
    * non-perishable stops, every perishable stop before every non-perishable
    * one, and within a group by distance from the origin, ties by index. */
  lemma GroupedSeedOrder(n: nat, kinds: seq<Kind>, m: Matrix)
    requires IsMatrix(m, n) && |kinds| == n && n >= 1
    ensures var r := GroupedSeed(n, kinds, m);
      |r| >= 1 && r[0] == 0 && InBounds(r, n)
      && (forall x :: x in r[1..] <==> 1 <= x < n && kinds[x] != Current)
      && (forall a, b :: 1 <= a < b < |r| ==> SeedPrecedes(r[a], r[b], kinds, m))
  {
    GroupFacts(n, kinds, m, Perishable);
    GroupFacts(n, kinds, m, NonPerishable);
    var r := GroupedSeed(n, kinds, m);
    var p, o := Group(n, kinds, m, Perishable), Group(n, kinds, m, NonPerishable);
    assert r[1..] == p + o;
    forall a, b | 1 <= a < b < |r| ensures SeedPrecedes(r[a], r[b], kinds, m) {
      if b <= |p| {
        assert r[a] == p[a - 1] && r[b] == p[b - 1];
      } else if a > |p| {
        assert r[a] == o[a - 1 - |p|] && r[b] == o[b - 1 - |p|];
      } else {
        assert r[a] in p && r[b] in o;
      }
    }
  }
}
