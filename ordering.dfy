/** The order in which an underpay bid hands out its leftover cents:
    `sorted(others, key=lambda x: targets[x], reverse=True)`, which is stable,
    so equal targets keep participant order. Participants are positions
    into the target sequence `t`. */
module Ordering {

  /** `[pid for pid in targets if pid != bidder]`: every position except
      `b`, in participant order. */
  function Others(n: nat, b: nat): (xs: seq<nat>)
    requires b < n
    ensures |xs| == n - 1
    ensures forall k :: 0 <= k < |xs| ==> xs[k] < n && xs[k] != b
    ensures forall j :: 0 <= j < n && j != b ==> j in xs
    ensures Increasing(xs)
  {
    var xs := seq(n - 1, k requires 0 <= k < n - 1 => if k < b then k else k + 1);
    assert forall j | 0 <= j < n && j != b :: j in xs by {
      forall j | 0 <= j < n && j != b ensures j in xs {
        assert xs[if j < b then j else j - 1] == j;
      }
    }
    xs
  }

  /** Strictly increasing positions: a list of distinct participants kept
      in participant order. */
  predicate Increasing(xs: seq<nat>)
  {
    forall p, q :: 0 <= p < q < |xs| ==> xs[p] < xs[q]
  }

  predicate InRange(t: seq<int>, xs: seq<nat>)
  {
    forall k :: 0 <= k < |xs| ==> xs[k] < |t|
  }

  /** `x` comes before `y` in the stable descending order: a larger target
      first, and on equal targets the earlier participant first. */
  predicate Before(t: seq<int>, x: nat, y: nat)
    requires x < |t| && y < |t|
  {
    t[x] > t[y] || (t[x] == t[y] && x < y)
  }

  /** Every earlier entry comes before every later one. */
  predicate Ordered(t: seq<int>, xs: seq<nat>)
    requires InRange(t, xs)
  {
    forall p, q :: 0 <= p < q < |xs| ==> Before(t, xs[p], xs[q])
  }

  /** Places `x` after every entry whose target is at least `t[x]`. */
  function Insert(t: seq<int>, x: nat, xs: seq<nat>): (r: seq<nat>)
    requires x < |t| && InRange(t, xs)
    ensures multiset(r) == multiset(xs) + multiset{x} && |r| == |xs| + 1
    ensures InRange(t, r)
  {
    if xs == [] then [x]
    else if t[xs[0]] < t[x] then [x] + xs
    else
      assert xs == [xs[0]] + xs[1..];
      [xs[0]] + Insert(t, x, xs[1..])
  }

  lemma {:induction false} InsertOrdered(t: seq<int>, x: nat, xs: seq<nat>)
    requires x < |t| && InRange(t, xs) && Ordered(t, xs)
    requires forall k :: 0 <= k < |xs| ==> xs[k] < x
    ensures Ordered(t, Insert(t, x, xs))
  {
    if xs != [] && t[xs[0]] >= t[x] {
      InsertOrdered(t, x, xs[1..]);
      var r := Insert(t, x, xs);
      var tail := Insert(t, x, xs[1..]);
      assert r == [xs[0]] + tail;
      forall q | 0 < q < |r| ensures Before(t, r[0], r[q]) {
        var k := InsertMember(t, x, xs[1..], q - 1);
        if k >= 0 {
          assert xs[k + 1] == r[q];
        }
      }
    }
  }

  /** Every entry of `Insert(t, x, xs)` is `x` or an entry of `xs`: at
      position `k`, or `k` is -1 for `x`. */
  lemma InsertMember(t: seq<int>, x: nat, xs: seq<nat>, i: nat) returns (k: int)
    requires x < |t| && InRange(t, xs) && i < |xs| + 1
    ensures -1 <= k < |xs|
    ensures k == -1 ==> Insert(t, x, xs)[i] == x
    ensures k >= 0 ==> Insert(t, x, xs)[i] == xs[k]
  {
    var y := Insert(t, x, xs)[i];
    assert y in multiset(xs) + multiset{x};
    if y == x {
      k := -1;
    } else {
      assert y in multiset(xs);
      k :| 0 <= k < |xs| && xs[k] == y;
    }
  }

  /** The stable sort by descending target: insert the participants one by
      one in their order, each after all earlier ones with an equal or
      larger target. */
  function SortDesc(t: seq<int>, xs: seq<nat>): (r: seq<nat>)
    requires InRange(t, xs)
    ensures multiset(r) == multiset(xs) && |r| == |xs|
    ensures InRange(t, r)
  {
    if xs == [] then []
    else
      var n := |xs|;
      assert xs == xs[..n - 1] + [xs[n - 1]];
      Insert(t, xs[n - 1], SortDesc(t, xs[..n - 1]))
  }

  /** The stable descending sort of a list in participant order is ordered
      by (target descending, participant order ascending). */
  lemma {:induction false} SortDescOrdered(t: seq<int>, xs: seq<nat>)
    requires InRange(t, xs) && Increasing(xs)
    ensures Ordered(t, SortDesc(t, xs))
  {
    if xs != [] {
      var n := |xs|;
      var init := xs[..n - 1];
      SortDescOrdered(t, init);
      var sorted := SortDesc(t, init);
      AllBelow(sorted, init, xs[n - 1]);
      InsertOrdered(t, xs[n - 1], sorted);
    }
  }

  /** A rearrangement of a list whose entries are all below `x` has its
      entries all below `x` too. */
  lemma AllBelow(ys: seq<nat>, xs: seq<nat>, x: nat)
    requires multiset(ys) == multiset(xs)
    requires forall k :: 0 <= k < |xs| ==> xs[k] < x
    ensures forall k :: 0 <= k < |ys| ==> ys[k] < x
  {
    forall k | 0 <= k < |ys| ensures ys[k] < x {
      assert ys[k] in multiset(xs);
      var i :| 0 <= i < |xs| && xs[i] == ys[k];
    }
  }

  /** The head of an ordered list comes before every other member. */
  lemma HeadFirst(t: seq<int>, xs: seq<nat>, x: nat)
    requires InRange(t, xs) && Ordered(t, xs)
    requires x in multiset(xs)
    ensures x < |t| && (xs[0] == x || Before(t, xs[0], x))
  {
    var i :| 0 <= i < |xs| && xs[i] == x;
  }

  /** Two ordered arrangements of the same participants are the same list:
      the order by (target descending, participant order ascending) has no
      ties, so it fixes the arrangement completely. */
  lemma {:induction false} OrderedUnique(t: seq<int>, xs: seq<nat>, ys: seq<nat>)
    requires InRange(t, xs) && InRange(t, ys)
    requires Ordered(t, xs) && Ordered(t, ys)
    requires multiset(xs) == multiset(ys)
    ensures xs == ys
  {
    if xs != [] {
      HeadsAgree(t, xs, ys);
      OrderedTail(t, xs);
      OrderedTail(t, ys);
      OrderedUnique(t, xs[1..], ys[1..]);
      assert xs == [xs[0]] + xs[1..] && ys == [ys[0]] + ys[1..];
    }
  }

  /** Two ordered arrangements of the same non-empty multiset start with
      the same participant. */
  lemma HeadsAgree(t: seq<int>, xs: seq<nat>, ys: seq<nat>)
    requires InRange(t, xs) && InRange(t, ys)
    requires Ordered(t, xs) && Ordered(t, ys)
    requires multiset(xs) == multiset(ys) && xs != []
    ensures ys != [] && xs[0] == ys[0]
  {
    assert |ys| == |multiset(ys)| == |xs|;
    HeadFirst(t, ys, xs[0]);
    HeadFirst(t, xs, ys[0]);
  }

  /** Dropping the head of an ordered list leaves an ordered list of the
      remaining participants. */
  lemma OrderedTail(t: seq<int>, xs: seq<nat>)
    requires InRange(t, xs) && Ordered(t, xs) && xs != []
    ensures InRange(t, xs[1..]) && Ordered(t, xs[1..])
    ensures multiset(xs[1..]) == multiset(xs) - multiset{xs[0]}
  {
    assert xs == [xs[0]] + xs[1..];
  }

  /** Python's `xs[:k]`, including the negative `k` that counts from the end. */
  function SliceTo(xs: seq<nat>, k: int): (r: seq<nat>)
    ensures 0 <= k <= |xs| ==> r == xs[..k]
    ensures k > |xs| ==> r == xs
    ensures k < 0 ==> r == xs[..if |xs| + k < 0 then 0 else |xs| + k]
  {
    if k >= 0 then xs[..if k < |xs| then k else |xs|]
    else xs[..if |xs| + k < 0 then 0 else |xs| + k]
  }
}
