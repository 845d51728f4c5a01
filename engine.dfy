/** The allocation engine as the source runs it: one mutable target per
    participant, held in an array indexed by participant position (the
    source's dictionary iterates in participant order), updated phase by
    phase. Each method is proved to compute its phase's function from
    module Allocation. */
module Engine {
  import opened Sums
  import opened Rounding
  import opened Pledges
  import opened Ordering
  import opened Allocation

  /** `compute_allocations`: the final target of every participant in
      integer cents, or the first unknown participant id a pledge names.
      `overpays` and `bids` are the event's active pledges of each kind in
      the order the store returns them. */
  method ComputeAllocations(totalCents: int, parts: seq<int>, overpays: seq<Pledge>, bids: seq<Pledge>)
    returns (r: Result<map<int, int>>)
    requires Distinct(parts)
    ensures r == Allocations(totalCents, parts, overpays, bids)
    ensures r.Ok? ==> r.value.Keys == set p | p in parts
  {
    if parts == [] {
      return Ok(map[]);
    }
    var n := |parts|;
    var base := totalCents / n;
    var targets := new int[n](_ => base);
    var remainder := totalCents - base * n;
    for i := 0 to remainder
      invariant forall j :: 0 <= j < n ==> targets[j] == if j < i then base + 1 else base
    {
      targets[i] := targets[i] + 1;
    }
    assert targets[..] == EqualSplit(totalCents, n);

    // Volunteer overpays, in pledge order.
    ghost var split := targets[..];
    for k := 0 to |overpays|
      invariant WithOverpays(targets[..], parts, overpays[k..]) == WithOverpays(split, parts, overpays)
    {
      var v := overpays[k];
      var i := IndexOf(parts, v.pid);
      if i.None? {
        return Err(UnknownParticipant(v.pid));
      }
      AddOverpay(targets, i.value, v);
    }

    // Underpay bids, in pledge order.
    ghost var overpaid := targets[..];
    for k := 0 to |bids|
      invariant WithBids(targets[..], parts, bids[k..]) == WithBids(overpaid, parts, bids)
    {
      var bid := bids[k];
      if bid.valueType != Unset {
        var b := IndexOf(parts, bid.pid);
        if b.None? {
          return Err(UnknownParticipant(bid.pid));
        }
        PlaceBid(targets, b.value, bid);
      }
    }

    CorrectGap(targets, totalCents);
    r := Ok(ToMap(parts, targets[..]));
  }

  /** Adds one volunteer overpay to participant `i`'s current target. */
  method AddOverpay(targets: array<int>, i: nat, v: Pledge)
    requires i < targets.Length
    modifies targets
    ensures targets[..] == WithOverpay(old(targets[..]), i, v)
  {
    var add := OverpayAmount(targets[i], v);
    targets[i] := targets[i] + add;
  }

  /** Applies one underpay bid of participant `b`: lowers `b`'s target by
      the shortfall and hands the shortfall to the others. */
  method PlaceBid(targets: array<int>, b: nat, bid: Pledge)
    requires b < targets.Length
    modifies targets
    ensures targets[..] == WithBid(old(targets[..]), b, bid)
  {
    ghost var s := targets[..];
    var shortfall := Shortfall(targets[b], bid);
    if shortfall <= 0 {
      assert WithBid(s, b, bid) == s;
      return;
    }
    BidRedistributes(s, b, bid);
    Lower(targets, b, shortfall);
    Redistribute(targets, b, shortfall);
  }

  /** `targets[bidder] -= shortfall`. */
  method Lower(targets: array<int>, b: nat, shortfall: int)
    requires b < targets.Length
    modifies targets
    ensures targets[..] == Lowered(old(targets[..]), b, shortfall)
  {
    targets[b] := targets[b] - shortfall;
  }

  /** Hands `shortfall` cents to every participant except `b`: floored
      proportional shares of their current targets, then one leftover cent
      each to the largest targets first. */
  method Redistribute(targets: array<int>, b: nat, shortfall: int)
    requires b < targets.Length
    modifies targets
    ensures targets[..] == Redistributed(old(targets[..]), b, shortfall)
  {
    ghost var t := targets[..];
    var n := targets.Length;
    var rest := OthersTotal(targets, b);
    var denom := if rest == 0 then 1 else rest;
    var addMap := FlooredShares(targets, b, shortfall, denom);
    var distributed := ArraySum(addMap);
    var order := SortDesc(targets[..], Others(n, b));
    var extra := SliceTo(order, shortfall - distributed);
    assert extra == ExtraCents(t, b, shortfall);
    GiveLeftoverCents(addMap, extra);
    AddShares(targets, b, addMap);
  }

  /** `sum(targets[pid] for pid in others)`: the total of every target
      except `b`'s. */
  method OthersTotal(targets: array<int>, b: nat) returns (rest: int)
    requires b < targets.Length
    ensures rest == Sum(targets[..][b := 0])
  {
    ghost var others := targets[..][b := 0];
    rest := 0;
    for j := 0 to targets.Length
      invariant rest == Sum(others[..j])
    {
      assert others[..j + 1][..j] == others[..j];
      if j != b {
        rest := rest + targets[j];
      }
    }
    assert others[..targets.Length] == others;
  }

  /** The initial `add_map`: each other participant's floored proportional
      share `(shortfall * target) // denom`. */
  method FlooredShares(targets: array<int>, b: nat, shortfall: int, denom: int)
    returns (addMap: array<int>)
    requires b < targets.Length
    requires denom == Denominator(targets[..], b)
    ensures fresh(addMap)
    ensures addMap[..] == Shares(targets[..], b, shortfall)
  {
    addMap := new int[targets.Length];
    for j := 0 to targets.Length
      invariant forall i :: 0 <= i < j ==> addMap[i] == Shares(targets[..], b, shortfall)[i]
    {
      addMap[j] := if j == b then 0 else FloorDiv(shortfall * targets[j], denom);
    }
  }

  /** `sum(...)` over an array of cents. */
  method ArraySum(a: array<int>) returns (sum: int)
    ensures sum == Sum(a[..])
  {
    sum := 0;
    for j := 0 to a.Length
      invariant sum == Sum(a[..j])
    {
      assert a[..j + 1][..j] == a[..j];
      sum := sum + a[j];
    }
    assert a[..a.Length] == a[..];
  }

  /** `add_map[pid] += 1` for every pid of `extra`, in order. */
  method GiveLeftoverCents(addMap: array<int>, extra: seq<nat>)
    requires InRange(addMap[..], extra)
    modifies addMap
    ensures addMap[..] == Bump(old(addMap[..]), extra)
  {
    ghost var shares := addMap[..];
    for k := 0 to |extra|
      invariant addMap[..] == Bump(shares, extra[..k])
    {
      BumpStep(shares, extra, k);
      Increment(addMap, extra[k]);
    }
    assert extra[..|extra|] == extra;
  }

  /** `add_map[pid] += 1`. */
  method Increment(addMap: array<int>, i: nat)
    requires i < addMap.Length
    modifies addMap
    ensures addMap[..] == old(addMap[..])[i := old(addMap[i]) + 1]
  {
    addMap[i] := addMap[i] + 1;
  }

  /** `targets[pid] += inc` for every other participant's entry of `add_map`. */
  method AddShares(targets: array<int>, b: nat, addMap: array<int>)
    requires b < targets.Length && addMap.Length == targets.Length && addMap != targets
    modifies targets
    ensures targets[..] == AddToOthers(old(targets[..]), b, addMap[..])
  {
    for j := 0 to targets.Length
      invariant forall i :: 0 <= i < j ==>
        targets[i] == if i == b then old(targets[i]) else old(targets[i]) + addMap[i]
      invariant forall i :: j <= i < targets.Length ==> targets[i] == old(targets[i])
    {
      if j != b {
        targets[j] := targets[j] + addMap[j];
      }
    }
  }

  /** Puts the whole gap between the total and the current sum on the
      first participant holding the largest target. */
  method CorrectGap(targets: array<int>, totalCents: int)
    requires targets.Length > 0
    modifies targets
    ensures targets[..] == WithCorrection(old(targets[..]), totalCents)
  {
    var sum := ArraySum(targets);
    var gap := totalCents - sum;
    if gap != 0 {
      var top := FirstMax(targets);
      targets[top] := targets[top] + gap;
    }
  }

  /** `max(targets, key=targets.get)`: the first position holding the
      largest target. */
  method FirstMax(targets: array<int>) returns (top: nat)
    requires targets.Length > 0
    ensures top < targets.Length
    ensures forall j :: 0 <= j < targets.Length ==> targets[j] <= targets[top]
    ensures forall j :: 0 <= j < top ==> targets[j] < targets[top]
    ensures top == FirstMaxIndex(targets[..])
  {
    top := 0;
    for j := 1 to targets.Length
      invariant top == FirstMaxIndex(targets[..j])
    {
      assert targets[..j + 1][..j] == targets[..j];
      if targets[j] > targets[top] {
        top := j;
      }
    }
    assert targets[..targets.Length] == targets[..];
  }
}
