/** The 2-opt local search refiner: first improvement with a full restart,
  * judged by raw distance only. */
module TwoOpt {
  import opened Routes
  import opened Scoring

  datatype Option<T> = None | Some(value: T)

  /** `s` read back to front. */
  function Rev(s: seq<nat>): (r: seq<nat>)
    ensures |r| == |s| && multiset(r) == multiset(s)
  {
    if s == [] then [] else
      assert s == [s[0]] + s[1..];
      Rev(s[1..]) + [s[0]]
  }

  lemma {:induction false} RevAt(s: seq<nat>, k: nat)
    requires k < |s|
    ensures Rev(s)[k] == s[|s| - 1 - k]
  {
    if k < |s| - 1 {
      RevAt(s[1..], k);
    }
  }

  /** A copy of `r` with the stops at positions `i..j` (inclusive) in reverse
    * order and every other stop in place. */
  function ReverseSegment(r: seq<nat>, i: nat, j: nat): (res: seq<nat>)
    requires i <= j < |r|
    ensures |res| == |r|
    ensures forall k :: 0 <= k < |r| ==> res[k] == if i <= k <= j then r[i + j - k] else r[k]
  {
    var mid := r[i..j + 1];
    var res := r[..i] + Rev(mid) + r[j + 1..];
    forall k | i <= k <= j ensures res[k] == r[i + j - k] {
      RevAt(mid, k - i);
    }
    res
  }

  /** Reversing a segment rearranges the stops without adding or losing any. */
  lemma ReverseSegmentPermutes(r: seq<nat>, i: nat, j: nat)
    requires i <= j < |r|
    ensures multiset(ReverseSegment(r, i, j)) == multiset(r)
  {
    var mid := r[i..j + 1];
    assert r == r[..i] + mid + r[j + 1..];
    assert ReverseSegment(r, i, j) == r[..i] + Rev(mid) + r[j + 1..];
  }

  lemma ReverseSegmentInBounds(r: seq<nat>, i: nat, j: nat, n: nat)
    requires i <= j < |r| && InBounds(r, n)
    ensures InBounds(ReverseSegment(r, i, j), n)
  {
    var res := ReverseSegment(r, i, j);
    forall k | 0 <= k < |res| ensures res[k] < n {
      var src := if i <= k <= j then i + j - k else k;
      assert res[k] == r[src];
    }
  }

  /** Reversing `[i..j]` strictly shortens `r`. */
  ghost predicate Improves(r: seq<nat>, m: Matrix, i: nat, j: nat)
  {
    if IsMatrix(m, |m|) && InBounds(r, |m|) && i <= j < |r| then
      ReverseSegmentInBounds(r, i, j, |m|);
      Distance(ReverseSegment(r, i, j), m) < Distance(r, m)
    else false
  }

  /** No reversal of a segment `[i..j]` with `1 <= i < j <= |r| - 1` shortens `r`. */
  ghost predicate LocallyOptimal(r: seq<nat>, m: Matrix)
    requires IsMatrix(m, |m|) && InBounds(r, |m|)
  {
    forall i, j :: 1 <= i < j < |r| ==> !Improves(r, m, i, j)
  }

  /** The scan of one pass of the double loop, resumed at `(i, j)`: `i`
    * ascending, then `j` ascending from `i + 1`; the first improving pair. */
  function ScanFrom(r: seq<nat>, m: Matrix, i: nat, j: nat): Option<(nat, nat)>
    requires IsMatrix(m, |m|) && InBounds(r, |m|) && 1 <= i < j
    decreases |r| - i, |r| - j
  {
    if i + 1 >= |r| then None
    else if j >= |r| then ScanFrom(r, m, i + 1, i + 2)
    else if ReverseSegmentInBounds(r, i, j, |m|);
            Distance(ReverseSegment(r, i, j), m) < Distance(r, m) then Some((i, j))
    else ScanFrom(r, m, i, j + 1)
  }

  /** `p` is an improving pair at or after `(i, j)` in scan order. */
  ghost predicate ScanHit(r: seq<nat>, m: Matrix, i: nat, j: nat, p: (nat, nat))
  {
    1 <= p.0 < p.1 < |r| && Improves(r, m, p.0, p.1) && (i < p.0 || (p.0 == i && j <= p.1))
  }

  /** A scan that reports a pair reports an improving pair at or after
    * `(i, j)` in scan order. */
  lemma {:induction false} ScanFromSome(r: seq<nat>, m: Matrix, i: nat, j: nat)
    requires IsMatrix(m, |m|) && InBounds(r, |m|) && 1 <= i < j
    requires ScanFrom(r, m, i, j).Some?
    ensures ScanHit(r, m, i, j, ScanFrom(r, m, i, j).value)
    decreases |r| - i, |r| - j
  {
    if j >= |r| {
      ScanFromSome(r, m, i + 1, i + 2);
    } else if !Improves(r, m, i, j) {
      ScanFromSome(r, m, i, j + 1);
    }
  }

  /** A scan that reports nothing has passed over no improving pair. */
  lemma {:induction false} ScanFromNone(r: seq<nat>, m: Matrix, i: nat, j: nat, a: nat, b: nat)
    requires IsMatrix(m, |m|) && InBounds(r, |m|) && 1 <= i < j
    requires ScanFrom(r, m, i, j).None?
    requires i < a < b < |r| || (a == i && j <= b < |r|)
    ensures !Improves(r, m, a, b)
    decreases |r| - i, |r| - j
  {
    if j >= |r| {
      ScanFromNone(r, m, i + 1, i + 2, a, b);
    } else if a != i || b != j {
      ScanFromNone(r, m, i, j + 1, a, b);
    }
  }

  /** The route the refiner ends at: adopt the first improving reversal and
    * rescan from the top, until a full scan finds none. */
  function Refine(r: seq<nat>, m: Matrix): seq<nat>
    requires IsMatrix(m, |m|) && InBounds(r, |m|)
    decreases Distance(r, m)
  {
    match ScanFrom(r, m, 1, 2)
    case None => r
    case Some((a, b)) =>
      ScanFromSome(r, m, 1, 2);
      ReverseSegmentInBounds(r, a, b, |m|);
      Refine(ReverseSegment(r, a, b), m)
  }

  /** Refinement keeps the stops and the origin, never lengthens the route,
    * ends at a local optimum, and leaves a local optimum as it is. */
  lemma {:induction false} RefineCorrect(r: seq<nat>, m: Matrix)
    requires IsMatrix(m, |m|) && InBounds(r, |m|)
    ensures var res := Refine(r, m);
      |res| == |r| && multiset(res) == multiset(r) && InBounds(res, |m|)
      && (|r| > 0 ==> res[0] == r[0])
      && Distance(res, m) <= Distance(r, m)
      && LocallyOptimal(res, m)
      && (LocallyOptimal(r, m) ==> res == r)
    decreases Distance(r, m)
  {
    match ScanFrom(r, m, 1, 2)
    case None =>
      forall a, b | 1 <= a < b < |r| ensures !Improves(r, m, a, b) {
        ScanFromNone(r, m, 1, 2, a, b);
      }
    case Some((a, b)) =>
      ScanFromSome(r, m, 1, 2);
      ReverseSegmentInBounds(r, a, b, |m|);
      ReverseSegmentPermutes(r, a, b);
      RefineCorrect(ReverseSegment(r, a, b), m);
  }

  /** Refining twice is refining once. */
  lemma RefineIdempotent(r: seq<nat>, m: Matrix)
    requires IsMatrix(m, |m|) && InBounds(r, |m|)
    ensures InBounds(Refine(r, m), |m|)
    ensures Refine(Refine(r, m), m) == Refine(r, m)
  {
    RefineCorrect(r, m);
    RefineCorrect(Refine(r, m), m);
  }

  /** Refinement turns a route into a route over the same stops. */
  lemma RefineKeepsRoute(r: seq<nat>, m: Matrix, n: nat)
    requires IsMatrix(m, |m|) && InBounds(r, |m|) && IsRoute(r, n)
    ensures IsRoute(Refine(r, m), n)
  {
    RefineCorrect(r, m);
  }

  /** One pass of the double loop of `two_opt_improvement` over `current`:
    * `i` ascending from 1, `j` ascending from `i + 1`, stopping at the first
    * reversal that is strictly shorter than `currentDistance`. */
  method FirstImprovingReversal(current: seq<nat>, currentDistance: nat, m: Matrix)
    returns (improved: bool, next: seq<nat>, nextDistance: nat)
    requires IsMatrix(m, |m|) && InBounds(current, |m|) && currentDistance == Distance(current, m)
    ensures improved <==> ScanFrom(current, m, 1, 2).Some?
    ensures improved ==>
              var (a, b) := ScanFrom(current, m, 1, 2).value;
              a <= b < |current| && next == ReverseSegment(current, a, b)
    ensures improved ==> InBounds(next, |m|) && nextDistance == Distance(next, m) < currentDistance
    ensures !improved ==> next == current && nextDistance == currentDistance
  {
    improved, next, nextDistance := false, current, currentDistance;
    var i := 1;
    while i + 1 < |current|
      invariant 1 <= i
      invariant ScanFrom(current, m, 1, 2) == ScanFrom(current, m, i, i + 1)
    {
      var j := i + 1;
      while j < |current|
        invariant i < j
        invariant ScanFrom(current, m, 1, 2) == ScanFrom(current, m, i, j)
      {
        var newRoute := ReverseSegment(current, i, j);
        ReverseSegmentInBounds(current, i, j, |m|);
        var newDistance := RouteDistance(newRoute, m);
        if newDistance < currentDistance {
          improved, next, nextDistance := true, newRoute, newDistance;
          return;
        }
        j := j + 1;
      }
      i := i + 1;
    }
  }

  /** `two_opt_improvement`: passes of the double loop until one finds no
    * improving reversal, restarting from the top after each improvement. */
  method TwoOptImprovement(route: seq<nat>, m: Matrix) returns (best: seq<nat>)
    requires IsMatrix(m, |m|) && InBounds(route, |m|)
    ensures best == Refine(route, m)
    ensures InBounds(best, |m|) && Distance(best, m) <= Distance(route, m) && LocallyOptimal(best, m)
  {
    var improved := true;
    best := route;
    var bestDistance := RouteDistance(best, m);
    while improved
      invariant InBounds(best, |m|) && Refine(best, m) == Refine(route, m)
      invariant bestDistance == Distance(best, m)
      invariant !improved ==> ScanFrom(best, m, 1, 2).None?
      decreases bestDistance + (if improved then 1 else 0)
    {
      improved, best, bestDistance := FirstImprovingReversal(best, bestDistance, m);
    }
    RefineCorrect(route, m);
  }
}
