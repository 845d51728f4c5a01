/** Sums of integer-cent sequences, and the facts about them that the
    allocation phases rely on. */
module Sums {

  /** Python's `sum(...)` over a sequence of integer cents. */
  function Sum(s: seq<int>): int
  {
    if s == [] then 0 else Sum(s[..|s| - 1]) + s[|s| - 1]
  }

  /** Changing one entry changes the sum by exactly the difference. */
  lemma {:induction false} SumUpdate(s: seq<int>, i: nat, v: int)
    requires i < |s|
    ensures Sum(s[i := v]) == Sum(s) - s[i] + v
  {
    var n := |s|;
    var t := s[i := v];
    if i == n - 1 {
      assert t[..n - 1] == s[..n - 1];
    } else {
      assert t[..n - 1] == s[..n - 1][i := v];
      SumUpdate(s[..n - 1], i, v);
    }
  }

  /** Summing `q[j] * d + r[j]` pointwise gives `Sum(q) * d + Sum(r)`. */
  lemma {:induction false} SumLinear(a: seq<int>, q: seq<int>, r: seq<int>, d: int)
    requires |a| == |q| == |r|
    requires forall j :: 0 <= j < |a| ==> a[j] == q[j] * d + r[j]
    ensures Sum(a) == Sum(q) * d + Sum(r)
  {
    if a != [] {
      var n := |a|;
      SumLinear(a[..n - 1], q[..n - 1], r[..n - 1], d);
      assert Sum(a) == Sum(q[..n - 1]) * d + Sum(r[..n - 1]) + q[n - 1] * d + r[n - 1];
      assert Sum(q) * d == Sum(q[..n - 1]) * d + q[n - 1] * d;
    }
  }

  /** Pointwise addition: the sum of a pointwise sum is the sum of the sums. */
  lemma SumAdd(a: seq<int>, x: seq<int>, y: seq<int>)
    requires |a| == |x| == |y|
    requires forall j :: 0 <= j < |a| ==> a[j] == x[j] + y[j]
    ensures Sum(a) == Sum(x) + Sum(y)
  {
    forall j | 0 <= j < |a| ensures a[j] == x[j] * 1 + y[j] { }
    SumLinear(a, x, y, 1);
  }

  /** Scaling every entry by `c` scales the sum by `c`. */
  lemma {:induction false} SumScale(a: seq<int>, w: seq<int>, c: int)
    requires |a| == |w|
    requires forall j :: 0 <= j < |a| ==> a[j] == c * w[j]
    ensures Sum(a) == c * Sum(w)
  {
    if a != [] {
      var n := |a|;
      SumScale(a[..n - 1], w[..n - 1], c);
      assert c * Sum(w) == c * Sum(w[..n - 1]) + c * w[n - 1];
    }
  }

  /** If every entry is in `[lo, hi]` and entry `z` is zero, the sum lies
      in `[(|s| - 1) * lo, (|s| - 1) * hi]`. */
  lemma {:induction false} SumBoundedButOne(s: seq<int>, z: nat, lo: int, hi: int)
    requires z < |s|
    requires s[z] == 0
    requires forall j :: 0 <= j < |s| ==> lo <= s[j] <= hi
    ensures (|s| - 1) * lo <= Sum(s) <= (|s| - 1) * hi
  {
    var n := |s|;
    if z == n - 1 {
      SumBetween(s[..n - 1], lo, hi);
    } else {
      SumBoundedButOne(s[..n - 1], z, lo, hi);
      assert (n - 1) * lo == (n - 2) * lo + lo && (n - 1) * hi == (n - 2) * hi + hi;
    }
  }

  /** If every entry is in `[lo, hi]`, the sum lies in `[|s| * lo, |s| * hi]`. */
  lemma {:induction false} SumBetween(s: seq<int>, lo: int, hi: int)
    requires forall j :: 0 <= j < |s| ==> lo <= s[j] <= hi
    ensures |s| * lo <= Sum(s) <= |s| * hi
  {
    if s != [] {
      var n := |s|;
      SumBetween(s[..n - 1], lo, hi);
      assert n * lo == (n - 1) * lo + lo && n * hi == (n - 1) * hi + hi;
    }
  }
}
