/** The exhaustive strategy for small instances: every ordering of the stops
  * after the origin, in the order `itertools.permutations` yields them. */
module Exhaustive {
  import opened Routes
  import opened Scoring

  /** `s` without its element at position `k`, the rest in order. */
  function Remove(s: seq<nat>, k: nat): (r: seq<nat>)
    requires k < |s|
    ensures |r| == |s| - 1
  {
    s[..k] + s[k + 1..]
  }

  lemma RemoveMultiset(s: seq<nat>, k: nat)
    requires k < |s|
    ensures multiset(s) == multiset{s[k]} + multiset(Remove(s, k))
  {
    assert s == s[..k] + [s[k]] + s[k + 1..];
  }

  /** Every sequence of `ps` with `x` put in front. */
  function Prepend(x: nat, ps: seq<seq<nat>>): seq<seq<nat>>
  {
    seq(|ps|, i requires 0 <= i < |ps| => [x] + ps[i])
  }

  /** Every ordering of `s`, in the order `itertools.permutations` yields
    * them: for each position `k` in turn, `s[k]` followed by every ordering of
    * the remaining elements. */
  function Perms(s: seq<nat>): seq<seq<nat>>
    decreases |s|, 1, 0
  {
    if s == [] then [[]] else PermsFrom(s, 0)
  }

  /** The orderings of `s` whose first element is taken from position `k` or later. */
  function PermsFrom(s: seq<nat>, k: nat): seq<seq<nat>>
    requires k <= |s|
    decreases |s|, 0, |s| - k
  {
    if k == |s| then [] else Prepend(s[k], Perms(Remove(s, k))) + PermsFrom(s, k + 1)
  }

  /** Soundness: each ordering produced holds exactly the elements of `s`. */
  lemma {:induction false} PermsSound(s: seq<nat>, i: nat)
    requires i < |Perms(s)|
    ensures multiset(Perms(s)[i]) == multiset(s)
    decreases |s|, 1, 0
  {
    if s != [] {
      PermsFromSound(s, 0, i);
    }
  }

  lemma {:induction false} PermsFromSound(s: seq<nat>, k: nat, i: nat)
    requires k <= |s| && i < |PermsFrom(s, k)|
    ensures multiset(PermsFrom(s, k)[i]) == multiset(s)
    decreases |s|, 0, |s| - k
  {
    var rest := Perms(Remove(s, k));
    if i < |rest| {
      PermsSound(Remove(s, k), i);
      RemoveMultiset(s, k);
      var q: seq<nat> := [s[k]] + rest[i];
      assert PermsFrom(s, k)[i] == q;
      assert multiset(q) == multiset{s[k]} + multiset(rest[i]);
    } else {
      PermsFromSound(s, k + 1, i - |rest|);
    }
  }

  /** Every ordering that starts with `s[k]` is produced from position `j <= k` on. */
  lemma {:induction false} PermsFromReaches(s: seq<nat>, j: nat, k: nat, q: seq<nat>)
    requires j <= k < |s| && q in Prepend(s[k], Perms(Remove(s, k)))
    ensures q in PermsFrom(s, j)
    decreases k - j
  {
    if j < k {
      PermsFromReaches(s, j + 1, k, q);
    }
  }

  /** Completeness: every rearrangement of `s` is produced. */
  lemma {:induction false} PermsComplete(s: seq<nat>, p: seq<nat>)
    requires multiset(p) == multiset(s)
    ensures p in Perms(s)
    decreases |s|
  {
    assert |p| == |multiset(p)| == |s|;
    if s != [] {
      assert p[0] in multiset(s);
      var k :| 0 <= k < |s| && s[k] == p[0];
      RemoveMultiset(s, k);
      assert p == [p[0]] + p[1..];
      var tail: seq<nat> := p[1..];
      assert multiset(p) == multiset{p[0]} + multiset(tail);
      var a, b := multiset(tail), multiset(Remove(s, k));
      forall v ensures a[v] == b[v] {
        assert (multiset{p[0]} + a)[v] == (multiset{p[0]} + b)[v];
      }
      PermsComplete(Remove(s, k), tail);
      var rest := Perms(Remove(s, k));
      var i :| 0 <= i < |rest| && rest[i] == tail;
      assert Prepend(s[k], rest)[i] == p;
      PermsFromReaches(s, 0, k, p);
    }
  }

  lemma PrependOne(x: nat, p: seq<nat>)
    ensures Prepend(x, [p]) == [[x] + p]
  {
    var r := Prepend(x, [p]);
    assert |r| == 1 && r[0] == [x] + p;
  }

  lemma PrependTwo(x: nat, p: seq<nat>, q: seq<nat>)
    ensures Prepend(x, [p, q]) == [[x] + p, [x] + q]
  {
    var r := Prepend(x, [p, q]);
    assert |r| == 2 && r[0] == [x] + p && r[1] == [x] + q;
  }

  /** One element has the one ordering. */
  lemma PermsOfOne(a: nat)
    ensures Perms([a]) == [[a]]
  {
    assert Remove([a], 0) == [];
    PrependOne(a, []);
    assert [a] + [] == [a];
    assert PermsFrom([a], 0) == Prepend(a, [[]]) + PermsFrom([a], 1);
  }

  /** Two elements: in order, then swapped. */
  lemma PermsOfTwo(a: nat, b: nat)
    ensures Perms([a, b]) == [[a, b], [b, a]]
  {
    var s := [a, b];
    assert Remove(s, 0) == [b] && Remove(s, 1) == [a];
    PermsOfOne(a);
    PermsOfOne(b);
    PrependOne(a, [b]);
    PrependOne(b, [a]);
    assert [a] + [b] == s && [b] + [a] == [b, a];
    assert PermsFrom(s, 2) == [];
    assert PermsFrom(s, 1) == Prepend(b, [[a]]) + PermsFrom(s, 2);
    assert PermsFrom(s, 0) == Prepend(a, [[b]]) + PermsFrom(s, 1);
    assert Perms(s) == PermsFrom(s, 0);
  }

  /** Three elements are ordered as `itertools.permutations` orders them:
    * by the position of the first element, then of the second. */
  lemma PermsOfThree(a: nat, b: nat, c: nat)
    ensures Perms([a, b, c]) == [[a, b, c], [a, c, b], [b, a, c], [b, c, a], [c, a, b], [c, b, a]]
  {
    var s := [a, b, c];
    assert Remove(s, 0) == [b, c] && Remove(s, 1) == [a, c] && Remove(s, 2) == [a, b];
    PermsOfTwo(b, c);
    PermsOfTwo(a, c);
    PermsOfTwo(a, b);
    PrependTwo(a, [b, c], [c, b]);
    PrependTwo(b, [a, c], [c, a]);
    PrependTwo(c, [a, b], [b, a]);
    assert [a] + [b, c] == s && [a] + [c, b] == [a, c, b];
    assert [b] + [a, c] == [b, a, c] && [b] + [c, a] == [b, c, a];
    assert [c] + [a, b] == [c, a, b] && [c] + [b, a] == [c, b, a];
    assert PermsFrom(s, 3) == [];
    assert PermsFrom(s, 2) == Prepend(c, [[a, b], [b, a]]) + PermsFrom(s, 3);
    assert PermsFrom(s, 1) == Prepend(b, [[a, c], [c, a]]) + PermsFrom(s, 2);
    assert PermsFrom(s, 0) == Prepend(a, [[b, c], [c, b]]) + PermsFrom(s, 1);
    assert Perms(s) == PermsFrom(s, 0);
  }

  function Factorial(k: nat): (f: nat)
    ensures f >= 1
  {
    if k == 0 then 1 else k * Factorial(k - 1)
  }

  /** `s` has `|s|!` orderings. */
  lemma {:induction false} PermsCount(s: seq<nat>)
    ensures |Perms(s)| == Factorial(|s|)
    decreases |s|, 1, 0
  {
    if s != [] {
      PermsFromCount(s, 0);
    }
  }

  lemma {:induction false} PermsFromCount(s: seq<nat>, k: nat)
    requires k <= |s| && |s| > 0
    ensures |PermsFrom(s, k)| == (|s| - k) * Factorial(|s| - 1)
    decreases |s|, 0, |s| - k
  {
    if k < |s| {
      PermsCount(Remove(s, k));
      PermsFromCount(s, k + 1);
      var f := Factorial(|s| - 1);
      assert (|s| - k) * f == f + (|s| - k - 1) * f;
    }
  }

  /** The candidate routes of the exhaustive search: the origin followed by
    * each ordering of the stops `1..n-1`. */
  function Candidate(n: nat, k: nat): seq<nat>
    requires k < |Perms(Iota(1, n))|
  {
    [0] + Perms(Iota(1, n))[k]
  }

  /** Every candidate is a route. */
  lemma CandidateIsRoute(n: nat, k: nat)
    requires n >= 1 && k < |Perms(Iota(1, n))|
    ensures IsRoute(Candidate(n, k), n) && InBounds(Candidate(n, k), n)
  {
    var r := Candidate(n, k);
    PermsSound(Iota(1, n), k);
    assert r[1..] == Perms(Iota(1, n))[k];
    RouteSplit(r, n);
    PermutationInBounds(r, n);
  }

  /** Every route is a candidate. */
  lemma RouteIsCandidate(p: seq<nat>, n: nat)
    requires n >= 1 && IsRoute(p, n)
    ensures exists k :: 0 <= k < |Perms(Iota(1, n))| && p == [0] + Perms(Iota(1, n))[k]
  {
    PermutationInBounds(p, n);
    RouteSplit(p, n);
    PermsComplete(Iota(1, n), p[1..]);
    var k :| 0 <= k < |Perms(Iota(1, n))| && Perms(Iota(1, n))[k] == p[1..];
    assert p == [0] + p[1..];
  }

  /** Score of candidate `k`. */
  ghost function CandidateScore(n: nat, kinds: seq<Kind>, m: Matrix, k: nat): nat
    requires n >= 1 && IsMatrix(m, n) && |kinds| == n && k < |Perms(Iota(1, n))|
  {
    CandidateIsRoute(n, k);
    Score(Candidate(n, k), kinds, m)
  }

  /** The exhaustive branch of `optimize_delivery_route_advanced`: score every
    * candidate, keep the first one with the strictly lowest score. The result
    * is a route whose score no route beats, and no earlier candidate ties it. */
  method ExhaustiveSearch(n: nat, kinds: seq<Kind>, m: Matrix)
    returns (best: seq<nat>, bestScore: nat, ghost at: nat)
    requires n >= 2 && IsMatrix(m, n) && |kinds| == n
    ensures at < |Perms(Iota(1, n))| && best == Candidate(n, at)
    ensures IsRoute(best, n) && InBounds(best, n) && bestScore == Score(best, kinds, m)
    ensures forall p :: IsRoute(p, n) && InBounds(p, n) ==> bestScore <= Score(p, kinds, m)
    ensures forall k :: 0 <= k < at ==> bestScore < CandidateScore(n, kinds, m, k)
  {
    var perms := Perms(Iota(1, n));
    PermsCount(Iota(1, n));
    var found := false;
    best, bestScore, at := [], 0, 0;
    var i := 0;
    while i < |perms|
      invariant i <= |perms|
      invariant found <==> i > 0
      invariant found ==> at < i && best == Candidate(n, at) && bestScore == CandidateScore(n, kinds, m, at)
      invariant found ==> forall k :: 0 <= k < i ==> bestScore <= CandidateScore(n, kinds, m, k)
      invariant found ==> forall k :: 0 <= k < at ==> bestScore < CandidateScore(n, kinds, m, k)
    {
      var route := [0] + perms[i];
      CandidateIsRoute(n, i);
      var score := RouteScore(route, kinds, m);
      if !found || score < bestScore {
        found, best, bestScore, at := true, route, score, i;
      }
      i := i + 1;
    }
    CandidateIsRoute(n, at);
    BestOverAllRoutes(n, kinds, m, bestScore);
  }

  /** A score no candidate beats is one no route beats. */
  lemma BestOverAllRoutes(n: nat, kinds: seq<Kind>, m: Matrix, s: nat)
    requires n >= 1 && IsMatrix(m, n) && |kinds| == n
    requires forall k :: 0 <= k < |Perms(Iota(1, n))| ==> s <= CandidateScore(n, kinds, m, k)
    ensures forall p :: IsRoute(p, n) && InBounds(p, n) ==> s <= Score(p, kinds, m)
  {
    forall p | IsRoute(p, n) && InBounds(p, n) ensures s <= Score(p, kinds, m) {
      RouteIsCandidate(p, n);
      var k :| 0 <= k < |Perms(Iota(1, n))| && p == [0] + Perms(Iota(1, n))[k];
      assert p == Candidate(n, k);
      assert s <= CandidateScore(n, kinds, m, k);
    }
  }
}
