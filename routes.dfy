/** Shared vocabulary of the route engine: item kinds, the distance matrix,
  * index ranges and what it means for a sequence of stop indices to be a route. */
module Routes {

  /** The `type` of the item attached to a stop. The origin carries `Current`. */
  datatype Kind = Current | Perishable | NonPerishable

  /** A distance matrix: `n` rows of `n` non-negative distances. */
  type Matrix = seq<seq<nat>>

  ghost predicate IsMatrix(m: Matrix, n: nat)
  {
    |m| == n && forall i :: 0 <= i < n ==> |m[i]| == n
  }

  /** Every stop index of `r` names a row and column of an `n`-by-`n` matrix. */
  ghost predicate InBounds(r: seq<nat>, n: nat)
  {
    forall k :: 0 <= k < |r| ==> r[k] < n
  }

  /** The integers from `lo` up to, but not including, `hi`, in ascending order. */
  function Iota(lo: nat, hi: nat): (s: seq<nat>)
    ensures |s| == if lo <= hi then hi - lo else 0
    ensures forall k :: 0 <= k < |s| ==> s[k] == lo + k
    decreases hi - lo
  {
    if hi <= lo then [] else [lo] + Iota(lo + 1, hi)
  }

  lemma {:induction false} IotaCount(lo: nat, hi: nat, x: nat)
    ensures multiset(Iota(lo, hi))[x] == if lo <= x < hi then 1 else 0
    decreases hi - lo
  {
    if lo < hi {
      var rest := Iota(lo + 1, hi);
      var head: seq<nat> := [lo];
      assert Iota(lo, hi) == head + rest;
      var mh: multiset<nat>, mr: multiset<nat> := multiset(head), multiset(rest);
      assert multiset(Iota(lo, hi)) == mh + mr;
      assert mh[x] == if x == lo then 1 else 0;
      IotaCount(lo + 1, hi, x);
    } else {
      assert Iota(lo, hi) == [];
    }
  }

  /** Membership in `Iota(lo, hi)`. */
  lemma IotaMember(lo: nat, hi: nat)
    ensures forall v :: v in Iota(lo, hi) <==> lo <= v < hi
  {
    forall v | lo <= v < hi ensures v in Iota(lo, hi) {
      assert Iota(lo, hi)[v - lo] == v;
    }
  }

  /** The set of the values of `Iota(lo, hi)`. */
  function IotaSet(lo: nat, hi: nat): set<nat>
  {
    set v | v in Iota(lo, hi)
  }

  /** `Iota(lo, hi)` holds each value once, so turning it into a set loses
    * nothing. */
  lemma IotaAsSet(lo: nat, hi: nat)
    ensures multiset(Iota(lo, hi)) == multiset(IotaSet(lo, hi))
    ensures forall v :: v in IotaSet(lo, hi) <==> lo <= v < hi
  {
    var a := multiset(Iota(lo, hi));
    var b := multiset(IotaSet(lo, hi));
    forall x: nat ensures a[x] == b[x] && (x in IotaSet(lo, hi) <==> lo <= x < hi) {
      IotaCount(lo, hi, x);
    }
  }

  /** `r` holds each of `0, ..., n - 1` exactly once. */
  ghost predicate IsPermutation(r: seq<nat>, n: nat)
  {
    multiset(r) == multiset(Iota(0, n))
  }

  /** A route over `n` stops: a permutation of `0..n-1` that starts at the origin. */
  ghost predicate IsRoute(r: seq<nat>, n: nat)
  {
    IsPermutation(r, n) && (n > 0 ==> r[0] == 0)
  }

  /** A permutation has length `n` and only indices below `n`. */
  lemma {:induction false} PermutationInBounds(r: seq<nat>, n: nat)
    requires IsPermutation(r, n)
    ensures |r| == n && InBounds(r, n)
  {
    assert |multiset(r)| == |r|;
    forall k | 0 <= k < |r| ensures r[k] < n {
      assert r[k] in multiset(r);
      IotaCount(0, n, r[k]);
    }
  }

  /** With the origin fixed first, a route is the origin followed by a
    * permutation of the other stops. */
  lemma RouteSplit(r: seq<nat>, n: nat)
    requires n > 0 && |r| > 0 && r[0] == 0
    ensures IsRoute(r, n) <==> multiset(r[1..]) == multiset(Iota(1, n))
  {
    assert r == [0] + r[1..];
    assert Iota(0, n) == [0] + Iota(1, n);
    var x, y := multiset(r[1..]), multiset(Iota(1, n));
    assert multiset(r) == multiset{0} + x;
    assert multiset(Iota(0, n)) == multiset{0} + y;
    if multiset(r) == multiset(Iota(0, n)) {
      forall v ensures x[v] == y[v] {
        assert (multiset{0} + x)[v] == (multiset{0} + y)[v];
      }
    }
  }

  /** The only route over two stops is `[0, 1]`. */
  lemma {:induction false} TwoStopRoute(r: seq<nat>)
    requires IsRoute(r, 2)
    ensures r == [0, 1]
  {
    PermutationInBounds(r, 2);
    IotaCount(0, 2, 0);
    assert r == [0] + [r[1]];
    assert multiset(r) == multiset{0} + multiset{r[1]};
    assert multiset(r)[0] == 1;
    assert r[1] != 0;
  }

  /** The values of `s` strictly increase from left to right. */
  ghost predicate Increasing(s: seq<nat>)
  {
    forall a, b :: 0 <= a < b < |s| ==> s[a] < s[b]
  }

  /** Dropping the first value of an increasing sequence leaves it increasing. */
  lemma IncreasingTail(s: seq<nat>)
    requires Increasing(s) && s != []
    ensures Increasing(s[1..])
  {
    forall a, b | 0 <= a < b < |s| - 1 ensures s[1..][a] < s[1..][b] {
      assert s[a + 1] < s[b + 1];
    }
  }
}
