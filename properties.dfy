/** What the allocation phases guarantee, phase by phase and end to end. */
module Properties {
  import opened Sums
  import opened Rounding
  import opened Pledges
  import opened Ordering
  import opened Allocation

  // ---------------------------------------------------------------------
  // Phase 1

  /** The sum of `n` entries, the first `extra` of which are `base + 1` and
      the rest `base`. */
  lemma {:induction false} SplitSum(s: seq<int>, base: int, extra: nat)
    requires extra <= |s|
    requires forall i :: 0 <= i < |s| ==> s[i] == if i < extra then base + 1 else base
    ensures Sum(s) == |s| * base + extra
  {
    if s != [] {
      var n := |s|;
      SplitSum(s[..n - 1], base, if extra == n then n - 1 else extra);
    }
  }

  /** Every participant starts at `base` or `base + 1`; exactly the first
      `remainder` in participant order hold `base + 1`, with `remainder` in
      `[0, n)`; and the split adds up to the total. */
  lemma EqualSplitShape(total: int, n: nat)
    requires n > 0
    ensures var s := EqualSplit(total, n);
      var base := total / n;
      var remainder := total - base * n;
      && 0 <= remainder < n
      && (forall i :: 0 <= i < n ==> s[i] == base || s[i] == base + 1)
      && (forall i :: 0 <= i < n ==> (s[i] == base + 1 <==> i < remainder))
      && Sum(s) == total
  {
    var base := total / n;
    var remainder := total - base * n;
    SplitSum(EqualSplit(total, n), base, remainder);
  }

  // ---------------------------------------------------------------------
  // Phase 2

  /** An overpay changes its own participant's target only: by exactly its
      value when fixed, by nothing when its value type is unset, and the
      total moves by what was added. */
  lemma {:induction false} OverpayTouchesOnlyItsParticipant(s: seq<int>, i: nat, p: Pledge)
    requires i < |s|
    ensures var r := WithOverpay(s, i, p);
      && (forall j :: 0 <= j < |s| && j != i ==> r[j] == s[j])
      && (p.valueType == Fixed ==> r[i] == s[i] + p.value)
      && (p.valueType == Unset ==> r == s)
      && Sum(r) == Sum(s) + (r[i] - s[i])
  {
    var amount := OverpayAmount(s[i], p);
    var r := s[i := s[i] + amount];
    assert WithOverpay(s, i, p) == r;
    SumUpdate(s, i, s[i] + amount);
    if p.valueType == Unset {
      assert amount == 0;
      assert r == s;
    }
  }

  /** A non-negative percentage of a non-negative target is never negative,
      so a percent overpay never lowers its participant's target. */
  lemma PercentOverpayNeverLowers(s: seq<int>, i: nat, p: Pledge)
    requires i < |s| && s[i] >= 0
    requires p.valueType == Percent && p.value >= 0
    ensures WithOverpay(s, i, p)[i] >= s[i]
  {
    assert s[i] * p.value >= 0;
  }

  // ---------------------------------------------------------------------
  // Phase 3: the bidder

  /** A fixed shortfall is capped at the bidder's current target, and a
      percentage in [0, 100] of a non-negative target is at most the target,
      so a bidder who starts non-negative stays non-negative, and never
      ends above where it started. */
  lemma BidderStaysNonNegative(s: seq<int>, b: nat, p: Pledge)
    requires b < |s| && s[b] >= 0
    requires p.valueType == Percent ==> 0 <= p.value <= PercentScale
    ensures p.valueType == Fixed ==> Shortfall(s[b], p) == if p.value <= s[b] then p.value else s[b]
    ensures 0 <= WithBid(s, b, p)[b] <= s[b]
  {
    if p.valueType == Percent {
      PercentWithinTarget(s[b], p.value);
    }
  }

  /** A bid whose shortfall is not positive changes nothing. */
  lemma BidWithoutShortfallIsNoop(s: seq<int>, b: nat, p: Pledge)
    requires b < |s|
    requires Shortfall(s[b], p) <= 0
    ensures WithBid(s, b, p) == s
  {
  }

  // ---------------------------------------------------------------------
  // Phase 3: the redistribution

  /** Each floored share leaves a remainder of its exact proportional part
      `shortfall * t[j] / d` that lies in `[0, d)` for a positive `d` and in
      `(d, 0]` for a negative one, and the bidder none. */
  lemma ShareRemainders(t: seq<int>, b: nat, shortfall: int)
    returns (scaled: seq<int>, rests: seq<int>)
    requires b < |t| && Sum(t[b := 0]) != 0
    ensures |scaled| == |t| && |rests| == |t|
    ensures forall j :: 0 <= j < |t| ==> scaled[j] == shortfall * t[b := 0][j]
    ensures forall j :: 0 <= j < |t| ==>
      scaled[j] == Shares(t, b, shortfall)[j] * Sum(t[b := 0]) + rests[j]
    ensures rests[b] == 0
    ensures Sum(t[b := 0]) > 0 ==> forall j :: 0 <= j < |t| ==> 0 <= rests[j] <= Sum(t[b := 0]) - 1
    ensures Sum(t[b := 0]) < 0 ==> forall j :: 0 <= j < |t| ==> Sum(t[b := 0]) + 1 <= rests[j] <= 0
  {
    var n := |t|;
    var w := t[b := 0];
    var d := Sum(w);
    var shares := Shares(t, b, shortfall);
    assert Denominator(t, b) == d;
    scaled := seq(n, j requires 0 <= j < n => shortfall * w[j]);
    rests := seq(n, j requires 0 <= j < n => scaled[j] - shares[j] * d);
    forall j | 0 <= j < n && j != b
      ensures d > 0 ==> 0 <= rests[j] <= d - 1
      ensures d < 0 ==> d + 1 <= rests[j] <= 0
    {
      assert shares[j] == FloorDiv(shortfall * t[j], d);
    }
  }

  /** There is another participant whenever the others' total is not 0. */
  lemma OthersExist(t: seq<int>, b: nat)
    requires b < |t|
    ensures |t| == 1 ==> Sum(t[b := 0]) == 0
  {
    if |t| == 1 {
      assert t[b := 0] == [0];
    }
  }

  /** Whenever the others' total `d` is not 0, the exact proportional parts
      add up to the shortfall and each floor loses less than one cent, so
      the floored shares leave between 0 and `n - 2` cents undistributed:
      fewer than there are other participants. The signs of the targets do
      not matter, as Python's `//` floors for either sign of `d`. */
  lemma LeftoverBounds(t: seq<int>, b: nat, shortfall: int)
    requires b < |t| && Sum(t[b := 0]) != 0
    ensures 0 <= shortfall - Sum(Shares(t, b, shortfall)) < |t| - 1
  {
    OthersExist(t, b);
    var d := Sum(t[b := 0]);
    var distributed := Sum(Shares(t, b, shortfall));
    var m := shortfall - distributed;
    var leftover := LeftoverRemainders(t, b, shortfall);
    Cancel(shortfall, distributed, d, leftover);
    if d > 0 {
      MultiplesOf(m, |t| - 1, d);
    } else {
      NegativeMultiplesOf(m, |t| - 1, d, leftover);
    }
  }

  /** Summed over the others, the flooring remainders make up `shortfall * d`
      less `distributed * d`, and lie in `[0, (others) * (d - 1)]` for a
      positive `d`, in `[(others) * (d + 1), 0]` for a negative one. */
  lemma LeftoverRemainders(t: seq<int>, b: nat, shortfall: int) returns (leftover: int)
    requires b < |t| && Sum(t[b := 0]) != 0
    ensures var d := Sum(t[b := 0]);
      && shortfall * d == Sum(Shares(t, b, shortfall)) * d + leftover
      && (d > 0 ==> 0 <= leftover <= (|t| - 1) * (d - 1))
      && (d < 0 ==> (|t| - 1) * (d + 1) <= leftover <= 0)
  {
    var d := Sum(t[b := 0]);
    var shares := Shares(t, b, shortfall);
    var scaled, rests := ShareRemainders(t, b, shortfall);
    SumLinear(scaled, shares, rests, d);
    SumScale(scaled, t[b := 0], shortfall);
    if d > 0 {
      SumBoundedButOne(rests, b, 0, d - 1);
    } else {
      SumBoundedButOne(rests, b, d + 1, 0);
    }
    leftover := Sum(rests);
  }

  /** `s * d == x * d + r` gives `(s - x) * d == r`. */
  lemma Cancel(s: int, x: int, d: int, r: int)
    requires s * d == x * d + r
    ensures (s - x) * d == r
  {
    assert (s - x) * d == s * d - x * d;
  }

  /** Cancels a positive factor: `0 <= m * d < k * d` bounds `m` to `[0, k)`. */
  lemma MultiplesOf(m: int, k: int, d: int)
    requires d > 0 && k > 0 && 0 <= m * d <= k * (d - 1)
    ensures 0 <= m < k
  {
    assert (m - k) * d == m * d - k * d <= -k < 0;
  }

  /** The same for a negative factor: `k * (d + 1) <= m * d <= 0` bounds `m`
      to `[0, k)`. */
  lemma NegativeMultiplesOf(m: int, k: int, d: int, r: int)
    requires d < 0 && k > 0 && m * d == r && k * (d + 1) <= r <= 0
    ensures 0 <= m < k
  {
    assert m * -d == -r;
    assert k * (-d - 1) == -(k * (d + 1));
    MultiplesOf(m, k, -d);
  }

  /** Bumping once per entry of `e` adds `|e|` to the sum. */
  lemma {:induction false} BumpSum(a: seq<int>, e: seq<nat>)
    requires InRange(a, e)
    ensures Sum(Bump(a, e)) == Sum(a) + |e|
  {
    if e != [] {
      var n := |e|;
      BumpSum(a, e[..n - 1]);
      var prev := Bump(a, e[..n - 1]);
      SumUpdate(prev, e[n - 1], prev[e[n - 1]] + 1);
    }
  }

  /** A participant appears at most once in a strictly increasing list. */
  lemma {:induction false} IncreasingOnce(xs: seq<nat>, x: nat)
    requires Increasing(xs)
    ensures multiset(xs)[x] <= 1
  {
    if xs != [] {
      assert xs == [xs[0]] + xs[1..];
      IncreasingOnce(xs[1..], x);
      if x == xs[0] {
        assert x !in xs[1..];
      }
    }
  }

  /** Whenever the others' total is not 0, the leftover
      cents go to a plain prefix of the stable descending order of the
      others, shorter than that order. */
  lemma ExtraIsPrefix(t: seq<int>, b: nat, shortfall: int) returns (order: seq<nat>, m: nat)
    requires b < |t| && Sum(t[b := 0]) != 0
    ensures order == SortDesc(t, Others(|t|, b))
    ensures m == shortfall - Sum(Shares(t, b, shortfall)) && m < |order|
    ensures ExtraCents(t, b, shortfall) == order[..m]
  {
    order := SortDesc(t, Others(|t|, b));
    LeftoverBounds(t, b, shortfall);
    m := shortfall - Sum(Shares(t, b, shortfall));
  }

  /** Whatever the others' total, no participant gets more than one
      leftover cent, and the bidder gets none: the receivers are a prefix of
      the others, each of whom occurs once. */
  lemma {:induction false} ExtraAtMostOnce(t: seq<int>, b: nat, shortfall: int)
    requires b < |t|
    ensures forall j: nat :: j < |t| ==>
      multiset(ExtraCents(t, b, shortfall))[j] <= (if j == b then 0 else 1)
  {
    var order := SortDesc(t, Others(|t|, b));
    var m := shortfall - Sum(Shares(t, b, shortfall));
    var k :=
      if m < 0 then (if |order| + m < 0 then 0 else |order| + m)
      else if m < |order| then m else |order|;
    assert ExtraCents(t, b, shortfall) == order[..k];
    forall j: nat | j < |t| ensures multiset(order[..k])[j] <= (if j == b then 0 else 1) {
      PrefixCount(order, k, j);
      OthersOnce(|t|, b, j);
    }
  }

  /** A prefix holds no more copies of `x` than the whole list. */
  lemma PrefixCount(xs: seq<nat>, m: nat, x: nat)
    requires m <= |xs|
    ensures multiset(xs[..m])[x] <= multiset(xs)[x]
  {
    assert xs == xs[..m] + xs[m..];
  }

  /** Every position except the bidder's occurs once among the others,
      and the bidder's not at all. */
  lemma OthersOnce(n: nat, b: nat, j: nat)
    requires b < n
    ensures multiset(Others(n, b))[j] <= (if j == b then 0 else 1)
  {
    IncreasingOnce(Others(n, b), j);
    if j == b {
      assert j !in Others(n, b);
    }
  }

  /** Redistribution hands out exactly `shortfall` cents in all: the
      floored shares plus one leftover cent per prefix entry. */
  lemma RedistributionAddsShortfall(t: seq<int>, b: nat, shortfall: int)
    requires b < |t| && Sum(t[b := 0]) != 0
    ensures Sum(Redistributed(t, b, shortfall)) == Sum(t) + shortfall
  {
    var order, m := ExtraIsPrefix(t, b, shortfall);
    ExtraAtMostOnce(t, b, shortfall);
    var shares := Shares(t, b, shortfall);
    var extra := ExtraCents(t, b, shortfall);
    var adds := Bump(shares, extra);
    BumpCounts(shares, extra);
    var r := Redistributed(t, b, shortfall);
    var counts: multiset<nat> := multiset(extra);
    assert counts[b] == 0;
    assert forall j :: 0 <= j < |t| ==> r[j] == t[j] + adds[j];
    SumAdd(r, t, adds);
    BumpSum(shares, extra);
  }

  /** Whenever the others' total is not 0, a leftover cent goes to `j` and
      not to `k` only when `j` comes before `k` in the stable descending
      order. */
  lemma ExtraGoesFirst(t: seq<int>, b: nat, shortfall: int, j: nat, k: nat)
    requires b < |t| && Sum(t[b := 0]) != 0
    requires j < |t| && k < |t| && k != b
    requires j in multiset(ExtraCents(t, b, shortfall))
    requires k !in multiset(ExtraCents(t, b, shortfall))
    ensures Before(t, j, k)
  {
    var order, m := OrderedExtra(t, b, shortfall);
    PrefixFirst(t, order, m, j, k);
  }

  /** The leftover-cent receivers are a prefix of an ordered list that
      holds every other participant. */
  lemma OrderedExtra(t: seq<int>, b: nat, shortfall: int) returns (order: seq<nat>, m: nat)
    requires b < |t| && Sum(t[b := 0]) != 0
    ensures InRange(t, order) && Ordered(t, order) && m <= |order|
    ensures ExtraCents(t, b, shortfall) == order[..m]
    ensures forall k :: 0 <= k < |t| && k != b ==> k in multiset(order)
  {
    var others := Others(|t|, b);
    order, m := ExtraIsPrefix(t, b, shortfall);
    SortDescOrdered(t, others);
    forall k | 0 <= k < |t| && k != b ensures k in multiset(order) {
      assert k in others;
    }
  }

  /** In an ordered list, a member of a prefix comes before any member
      outside that prefix. */
  lemma PrefixFirst(t: seq<int>, xs: seq<nat>, m: nat, j: nat, k: nat)
    requires InRange(t, xs) && Ordered(t, xs) && m <= |xs|
    requires j in multiset(xs[..m]) && k in multiset(xs) && k !in multiset(xs[..m])
    ensures j < |t| && k < |t| && Before(t, j, k)
  {
    var pj, pk := Positions(xs, m, j, k);
  }

  /** In a list cut into a prefix of length `m` and the rest, a member of
      the prefix and a member of the rest only are found at positions
      `pj < m <= pk`. */
  lemma Positions(xs: seq<nat>, m: nat, j: nat, k: nat) returns (pj: nat, pk: nat)
    requires m <= |xs|
    requires j in multiset(xs[..m]) && k in multiset(xs) && k !in multiset(xs[..m])
    ensures pj < m <= pk < |xs| && xs[pj] == j && xs[pk] == k
  {
    pj :| 0 <= pj < m && xs[..m][pj] == j;
    pk :| 0 <= pk < |xs| && xs[pk] == k;
    assert forall i :: 0 <= i < m ==> xs[i] != k by {
      forall i | 0 <= i < m ensures xs[i] != k {
        assert xs[i] == xs[..m][i];
      }
    }
  }

  /** The bidder's shortfall is handed on in full: an underpay bid with a
      positive shortfall keeps the total unchanged whenever the others'
      targets do not add up to 0, whatever their signs. */
  lemma BidConservesTotal(s: seq<int>, b: nat, p: Pledge)
    requires b < |s| && Shortfall(s[b], p) > 0
    requires Sum(s[b := 0]) != 0
    ensures Sum(WithBid(s, b, p)) == Sum(s)
    ensures WithBid(s, b, p)[b] == s[b] - Shortfall(s[b], p)
  {
    var sf := Shortfall(s[b], p);
    BidRedistributes(s, b, p);
    ShortfallHandedOn(s, b, sf);
  }

  /** `BidConservesTotal` for any shortfall. */
  lemma ShortfallHandedOn(s: seq<int>, b: nat, shortfall: int)
    requires b < |s| && Sum(s[b := 0]) != 0
    ensures Sum(Redistributed(Lowered(s, b, shortfall), b, shortfall)) == Sum(s)
  {
    var t := Lowered(s, b, shortfall);
    assert t == s[b := s[b] - shortfall];
    assert t[b := 0] == s[b := 0];
    RedistributionAddsShortfall(t, b, shortfall);
    SumUpdate(s, b, s[b] - shortfall);
    assert Sum(t) == Sum(s) - shortfall;
  }

  /** What participant `j` gained from a redistribution of `shortfall`
      cents, turning targets `s` into `r`, beyond its floored proportional
      share `shortfall * s[j] / d` of the others' total `d`. */
  function ExtraGain(s: seq<int>, r: seq<int>, b: nat, shortfall: int, j: nat): int
    requires b < |s| && j < |s| && |r| == |s| && Sum(s[b := 0]) > 0
  {
    r[j] - s[j] - (shortfall * s[j]) / Sum(s[b := 0])
  }

  /** When the others' targets are non-negative with a positive sum, every
      other participant receives its floored proportional share of the
      shortfall plus at most one cent, so no other participant's target
      goes down. */
  lemma BidSharesAreProportional(s: seq<int>, b: nat, p: Pledge, j: nat)
    requires b < |s| && Shortfall(s[b], p) > 0
    requires forall i :: 0 <= i < |s| && i != b ==> s[i] >= 0
    requires Sum(s[b := 0]) > 0
    requires j < |s| && j != b
    ensures 0 <= ExtraGain(s, WithBid(s, b, p), b, Shortfall(s[b], p), j) <= 1
    ensures s[j] <= WithBid(s, b, p)[j]
  {
    var sf := Shortfall(s[b], p);
    BidRedistributes(s, b, p);
    ShareProportionalAt(s, b, sf, j);
  }

  /** `BidSharesAreProportional` for any positive shortfall. */
  lemma ShareProportionalAt(s: seq<int>, b: nat, shortfall: int, j: nat)
    requires b < |s| && shortfall > 0
    requires forall i :: 0 <= i < |s| && i != b ==> s[i] >= 0
    requires Sum(s[b := 0]) > 0
    requires j < |s| && j != b
    ensures var r := Redistributed(Lowered(s, b, shortfall), b, shortfall);
      0 <= ExtraGain(s, r, b, shortfall, j) <= 1 && s[j] <= r[j]
  {
    var t := Lowered(s, b, shortfall);
    var d := Sum(s[b := 0]);
    var x := shortfall * s[j];
    assert t[b := 0] == s[b := 0] && t[j] == s[j];
    assert Denominator(t, b) == d;
    NonNegativeShare(shortfall, s[j], d);
    ExtraAtMostOnce(t, b, shortfall);
    var once: multiset<nat> := multiset(ExtraCents(t, b, shortfall));
    assert 0 <= once[j] <= 1;
    RedistributedAt(t, b, shortfall, j);
    assert Redistributed(t, b, shortfall)[j] == s[j] + x / d + once[j];
  }

  /** A non-negative part of a positive whole has a non-negative floored
      share. */
  lemma NonNegativeShare(shortfall: int, target: int, d: int)
    requires shortfall >= 0 && target >= 0 && d > 0
    ensures shortfall * target >= 0
    ensures FloorDiv(shortfall * target, d) == (shortfall * target) / d >= 0
  {
  }

  /** Each other participant gains exactly its floored share plus the
      number of leftover cents it received. */
  lemma RedistributedAt(t: seq<int>, b: nat, shortfall: int, j: nat)
    requires b < |t| && j < |t| && j != b
    ensures Redistributed(t, b, shortfall)[j]
      == t[j] + FloorDiv(shortfall * t[j], Denominator(t, b)) + multiset(ExtraCents(t, b, shortfall))[j]
  {
    var adds := Bump(Shares(t, b, shortfall), ExtraCents(t, b, shortfall));
    BumpCounts(Shares(t, b, shortfall), ExtraCents(t, b, shortfall));
    assert Redistributed(t, b, shortfall)[j] == t[j] + adds[j];
  }

  /** When the others' targets have a positive sum, whatever their signs,
      the leftover cents go to the largest current targets: an other
      participant that got a leftover cent comes before any other
      participant that did not, by larger target or, on equal targets, by
      earlier position in participant order. */
  lemma BidExtraCentsToLargest(s: seq<int>, b: nat, p: Pledge, j: nat, k: nat)
    requires b < |s| && Shortfall(s[b], p) > 0
    requires Sum(s[b := 0]) > 0
    requires j < |s| && k < |s| && j != b && k != b
    requires ExtraGain(s, WithBid(s, b, p), b, Shortfall(s[b], p), j) == 1
    requires ExtraGain(s, WithBid(s, b, p), b, Shortfall(s[b], p), k) == 0
    ensures Before(s, j, k)
  {
    var sf := Shortfall(s[b], p);
    BidRedistributes(s, b, p);
    ExtraCentToLargestAt(s, b, sf, j, k);
  }

  /** `BidExtraCentsToLargest` for any positive shortfall. */
  lemma ExtraCentToLargestAt(s: seq<int>, b: nat, shortfall: int, j: nat, k: nat)
    requires b < |s| && shortfall > 0
    requires Sum(s[b := 0]) > 0
    requires j < |s| && k < |s| && j != b && k != b
    requires var r := Redistributed(Lowered(s, b, shortfall), b, shortfall);
      ExtraGain(s, r, b, shortfall, j) == 1 && ExtraGain(s, r, b, shortfall, k) == 0
    ensures Before(s, j, k)
  {
    var t := Lowered(s, b, shortfall);
    assert t[b := 0] == s[b := 0];
    RedistributedAt(t, b, shortfall, j);
    RedistributedAt(t, b, shortfall, k);
    var extra: multiset<nat> := multiset(ExtraCents(t, b, shortfall));
    assert extra[j] == 1 && extra[k] == 0;
    ExtraGoesFirst(t, b, shortfall, j, k);
  }

  // ---------------------------------------------------------------------
  // Phase 4

  /** The correction brings the sum to exactly the total. */
  lemma CorrectionRestoresTotal(s: seq<int>, total: int)
    requires s != []
    ensures Sum(WithCorrection(s, total)) == total
  {
    var gap := total - Sum(s);
    if gap != 0 {
      var i := FirstMaxIndex(s);
      SumUpdate(s, i, s[i] + gap);
    }
  }

  /** The correction changes no participant except the first one holding
      the largest target. */
  lemma CorrectionTouchesOnlyFirstMax(s: seq<int>, total: int)
    requires s != []
    ensures forall j :: 0 <= j < |s| && WithCorrection(s, total)[j] != s[j] ==> j == FirstMaxIndex(s)
  {
  }

  // ---------------------------------------------------------------------
  // The whole computation

  /** Conservation: whatever the pledges, a successful allocation over at
      least one participant sums to exactly the total, overpays included;
      with no participants the result is empty. */
  lemma AllocationConservesTotal(
    total: int, parts: seq<int>, overpays: seq<Pledge>, bids: seq<Pledge>)
    ensures parts == [] ==> Allocate(total, parts, overpays, bids) == Ok([])
    ensures parts != [] && Allocate(total, parts, overpays, bids).Ok? ==>
      Sum(Allocate(total, parts, overpays, bids).value) == total
  {
    if parts != [] {
      var s0 := EqualSplit(total, |parts|);
      var r1 := WithOverpays(s0, parts, overpays);
      if r1.Ok? {
        var r2 := WithBids(r1.value, parts, bids);
        if r2.Ok? {
          CorrectionRestoresTotal(r2.value, total);
        }
      }
    }
  }

  /** A single participant always ends up owing the whole total. */
  lemma SoleParticipantPaysAll(total: int, pid: int, overpays: seq<Pledge>, bids: seq<Pledge>)
    requires Allocate(total, [pid], overpays, bids).Ok?
    ensures Allocate(total, [pid], overpays, bids).value == [total]
  {
    AllocationConservesTotal(total, [pid], overpays, bids);
    var r := Allocate(total, [pid], overpays, bids).value;
    assert r == r[..0] + [r[0]];
  }

  /** The overpay loop fails exactly when some overpay names an unknown
      participant, and then with the first such one's id. */
  lemma {:induction false} OverpaysFail(s: seq<int>, parts: seq<int>, overpays: seq<Pledge>)
    requires |s| == |parts|
    ensures var r := WithOverpays(s, parts, overpays);
      && (r.Err? <==> exists k :: 0 <= k < |overpays| && overpays[k].pid !in parts)
      && (r.Err? ==>
            exists k :: (0 <= k < |overpays| && overpays[k].pid !in parts
              && r.error == UnknownParticipant(overpays[k].pid)
              && forall i :: 0 <= i < k ==> overpays[i].pid in parts))
    decreases |overpays|
  {
    if overpays != [] {
      var p := overpays[0];
      if p.pid in parts {
        var i := IndexOf(parts, p.pid).value;
        var rest := overpays[1..];
        OverpaysFail(WithOverpay(s, i, p), parts, rest);
        if exists k :: 0 <= k < |overpays| && overpays[k].pid !in parts {
          var k :| 0 <= k < |overpays| && overpays[k].pid !in parts;
          assert rest[k - 1] == overpays[k];
        }
        if WithOverpays(s, parts, overpays).Err? {
          var k :| 0 <= k < |rest| && rest[k].pid !in parts
            && WithOverpays(s, parts, overpays).error == UnknownParticipant(rest[k].pid)
            && forall i :: 0 <= i < k ==> rest[i].pid in parts;
          assert overpays[k + 1] == rest[k];
          assert forall i :: 0 <= i < k + 1 ==> overpays[i].pid in parts by {
            forall i | 0 <= i < k + 1 ensures overpays[i].pid in parts {
              if i > 0 {
                assert overpays[i] == rest[i - 1];
              }
            }
          }
        }
      }
    }
  }

  /** A bid raises when its value type is percent or fixed and it names an
      unknown participant. */
  predicate BidRaises(parts: seq<int>, p: Pledge)
  {
    p.valueType != Unset && p.pid !in parts
  }

  /** The bid loop fails exactly when some percent or fixed bid names an
      unknown participant, and then with the first such one's id. */
  lemma {:induction false} BidsFail(s: seq<int>, parts: seq<int>, bids: seq<Pledge>)
    requires |s| == |parts|
    ensures var r := WithBids(s, parts, bids);
      && (r.Err? <==> exists k :: 0 <= k < |bids| && BidRaises(parts, bids[k]))
      && (r.Err? ==>
            exists k :: (0 <= k < |bids| && BidRaises(parts, bids[k])
              && r.error == UnknownParticipant(bids[k].pid)
              && forall i :: 0 <= i < k ==> !BidRaises(parts, bids[i])))
    decreases |bids|
  {
    if bids != [] {
      var p := bids[0];
      if !BidRaises(parts, p) {
        var rest := bids[1..];
        var next := if p.valueType == Unset then s else WithBid(s, IndexOf(parts, p.pid).value, p);
        assert WithBids(s, parts, bids) == WithBids(next, parts, rest);
        BidsFail(next, parts, rest);
        if exists k :: 0 <= k < |bids| && BidRaises(parts, bids[k]) {
          var k :| 0 <= k < |bids| && BidRaises(parts, bids[k]);
          assert rest[k - 1] == bids[k];
        }
        if WithBids(s, parts, bids).Err? {
          var k :| 0 <= k < |rest| && BidRaises(parts, rest[k])
            && WithBids(s, parts, bids).error == UnknownParticipant(rest[k].pid)
            && forall i :: 0 <= i < k ==> !BidRaises(parts, rest[i]);
          assert bids[k + 1] == rest[k];
          assert forall i :: 0 <= i < k + 1 ==> !BidRaises(parts, bids[i]) by {
            forall i | 0 <= i < k + 1 ensures !BidRaises(parts, bids[i]) {
              if i > 0 {
                assert bids[i] == rest[i - 1];
              }
            }
          }
        }
      }
    }
  }

  /** The computation fails exactly when there is at least one participant
      and some overpay, or some percent or fixed bid, names an unknown
      participant; with no participants nothing is looked up. */
  lemma AllocationFailsOnlyOnUnknownIds(
    total: int, parts: seq<int>, overpays: seq<Pledge>, bids: seq<Pledge>)
    ensures Allocate(total, parts, overpays, bids).Err? <==>
      parts != [] &&
      ((exists k :: 0 <= k < |overpays| && overpays[k].pid !in parts) ||
       (exists k :: 0 <= k < |bids| && BidRaises(parts, bids[k])))
  {
    if parts != [] {
      var s0 := EqualSplit(total, |parts|);
      OverpaysFail(s0, parts, overpays);
      var r1 := WithOverpays(s0, parts, overpays);
      if r1.Ok? {
        BidsFail(r1.value, parts, bids);
      }
    }
  }
}
