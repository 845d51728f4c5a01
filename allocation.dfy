/** The allocation engine as functions on the sequence of integer-cent
    targets, one entry per participant in participant order. Each phase of
    `compute_allocations` is one function of the targets before it; the
    imperative engine is proved to compute exactly these. */
module Allocation {
  import opened Sums
  import opened Rounding
  import opened Pledges
  import opened Ordering

  // ---------------------------------------------------------------------
  // Phase 1: equal base split, remainder cents to the first participants

  function EqualSplit(total: int, n: nat): (s: seq<int>)
    requires n > 0
    ensures |s| == n
  {
    var base := total / n;
    var remainder := total - base * n;
    seq(n, i requires 0 <= i < n => if i < remainder then base + 1 else base)
  }

  // ---------------------------------------------------------------------
  // Phase 2: volunteer overpays, in pledge order

  /** What an overpay adds to the participant's current target: within
      half a cent of the exact percentage for a percent pledge, the value
      itself for a fixed one, and nothing otherwise. */
  function OverpayAmount(current: int, p: Pledge): (add: int)
    ensures p.valueType == Percent ==>
      -PercentScale <= 2 * (current * p.value - add * PercentScale) <= PercentScale
    ensures p.valueType == Fixed ==> add == p.value
    ensures p.valueType == Unset ==> add == 0
  {
    match p.valueType
    case Percent => PercentOf(current, p.value)
    case Fixed => p.value
    case Unset => 0
  }

  function WithOverpay(s: seq<int>, i: nat, p: Pledge): (r: seq<int>)
    requires i < |s|
    ensures |r| == |s|
  {
    s[i := s[i] + OverpayAmount(s[i], p)]
  }

  /** Every overpay looks its participant up, whatever its value type. */
  function WithOverpays(s: seq<int>, parts: seq<int>, overpays: seq<Pledge>): (r: Result<seq<int>>)
    requires |s| == |parts|
    ensures r.Ok? ==> |r.value| == |s|
    decreases |overpays|
  {
    if overpays == [] then Ok(s)
    else
      var p := overpays[0];
      match IndexOf(parts, p.pid)
      case None => Err(UnknownParticipant(p.pid))
      case Some(i) => WithOverpays(WithOverpay(s, i, p), parts, overpays[1..])
  }

  // ---------------------------------------------------------------------
  // Phase 3: underpay bids, in pledge order

  /** How much a bid takes off the bidder's current target: within half a
      cent of the exact percentage for a percent pledge, the smaller of the
      value and the target for a fixed one, and nothing otherwise. */
  function Shortfall(current: int, p: Pledge): (shortfall: int)
    ensures p.valueType == Percent ==>
      -PercentScale <= 2 * (current * p.value - shortfall * PercentScale) <= PercentScale
    ensures p.valueType == Fixed ==>
      shortfall <= p.value && shortfall <= current && (shortfall == p.value || shortfall == current)
    ensures p.valueType == Unset ==> shortfall == 0
  {
    match p.valueType
    case Percent => PercentOf(current, p.value)
    case Fixed => if p.value <= current then p.value else current
    case Unset => 0
  }

  /** The denominator of the proportional shares: the others' total, or 1
      when that total is zero. */
  function Denominator(t: seq<int>, b: nat): (d: int)
    requires b < |t|
    ensures d != 0
  {
    var rest := Sum(t[b := 0]);
    if rest == 0 then 1 else rest
  }

  /** `add_map` before the leftover cents: each other participant's floored
      proportional share of `shortfall`. The bidder, who has no entry in the
      source's map, holds 0 here. */
  function Shares(t: seq<int>, b: nat, shortfall: int): (a: seq<int>)
    requires b < |t|
    ensures |a| == |t| && a[b] == 0
  {
    var denom := Denominator(t, b);
    seq(|t|, j requires 0 <= j < |t| => if j == b then 0 else FloorDiv(shortfall * t[j], denom))
  }

  /** The participants that get one leftover cent each: the first
      `shortfall - distributed` of the others in the stable descending
      order of their current targets. */
  function ExtraCents(t: seq<int>, b: nat, shortfall: int): (e: seq<nat>)
    requires b < |t|
    ensures InRange(t, e)
  {
    var order := SortDesc(t, Others(|t|, b));
    SliceTo(order, shortfall - Sum(Shares(t, b, shortfall)))
  }

  /** `add_map[pid] += 1` for each pid of `e`, in order. */
  function Bump(a: seq<int>, e: seq<nat>): (r: seq<int>)
    requires InRange(a, e)
    ensures |r| == |a|
  {
    if e == [] then a
    else
      var n := |e|;
      var prev := Bump(a, e[..n - 1]);
      prev[e[n - 1] := prev[e[n - 1]] + 1]
  }

  /** Each entry rises by the number of times its position is listed. */
  lemma {:induction false} BumpCounts(a: seq<int>, e: seq<nat>)
    requires InRange(a, e)
    ensures forall j :: 0 <= j < |a| ==> Bump(a, e)[j] == a[j] + multiset(e)[j]
  {
    if e != [] {
      var n := |e|;
      BumpCounts(a, e[..n - 1]);
      assert e == e[..n - 1] + [e[n - 1]];
    }
  }

  /** One more receiver of a leftover cent adds one to its entry. */
  lemma BumpStep(a: seq<int>, e: seq<nat>, k: nat)
    requires InRange(a, e) && k < |e|
    ensures var prev := Bump(a, e[..k]);
      Bump(a, e[..k + 1]) == prev[e[k] := prev[e[k]] + 1]
  {
    assert e[..k + 1][..k] == e[..k];
  }

  /** `targets[pid] += inc` for every other participant's entry of
      `add_map`. */
  function AddToOthers(t: seq<int>, b: nat, adds: seq<int>): (r: seq<int>)
    requires b < |t| && |adds| == |t|
    ensures |r| == |t| && r[b] == t[b]
  {
    seq(|t|, j requires 0 <= j < |t| => if j == b then t[j] else t[j] + adds[j])
  }

  /** Hands `shortfall` cents from bidder `b` to the others, whose current
      targets are `t` (the bidder's own entry has already been reduced). */
  function Redistributed(t: seq<int>, b: nat, shortfall: int): (r: seq<int>)
    requires b < |t|
    ensures |r| == |t| && r[b] == t[b]
  {
    AddToOthers(t, b, Bump(Shares(t, b, shortfall), ExtraCents(t, b, shortfall)))
  }

  /** `targets[bidder] -= shortfall`. */
  function Lowered(s: seq<int>, b: nat, shortfall: int): (r: seq<int>)
    requires b < |s|
    ensures |r| == |s|
  {
    s[b := s[b] - shortfall]
  }

  function WithBid(s: seq<int>, b: nat, p: Pledge): (r: seq<int>)
    requires b < |s|
    ensures |r| == |s|
  {
    var shortfall := Shortfall(s[b], p);
    if shortfall <= 0 then s
    else Redistributed(Lowered(s, b, shortfall), b, shortfall)
  }

  /** A bid with a positive shortfall lowers the bidder by it and hands it
      on to the others. */
  lemma BidRedistributes(s: seq<int>, b: nat, p: Pledge)
    requires b < |s| && Shortfall(s[b], p) > 0
    ensures var sf := Shortfall(s[b], p);
      WithBid(s, b, p) == Redistributed(Lowered(s, b, sf), b, sf)
  {
  }

  /** A bid whose value type is neither percent nor fixed never looks its
      participant up: its shortfall is 0 and it is skipped. */
  function WithBids(s: seq<int>, parts: seq<int>, bids: seq<Pledge>): (r: Result<seq<int>>)
    requires |s| == |parts|
    ensures r.Ok? ==> |r.value| == |s|
    decreases |bids|
  {
    if bids == [] then Ok(s)
    else
      var p := bids[0];
      if p.valueType == Unset then WithBids(s, parts, bids[1..])
      else
        match IndexOf(parts, p.pid)
        case None => Err(UnknownParticipant(p.pid))
        case Some(b) => WithBids(WithBid(s, b, p), parts, bids[1..])
  }

  // ---------------------------------------------------------------------
  // Phase 4: the final correction

  /** `max(targets, key=targets.get)`: the first participant holding the
      largest target. */
  function FirstMaxIndex(s: seq<int>): (i: nat)
    requires s != []
    ensures i < |s|
    ensures forall j :: 0 <= j < |s| ==> s[j] <= s[i]
    ensures forall j :: 0 <= j < i ==> s[j] < s[i]
  {
    if |s| == 1 then 0
    else
      var i := FirstMaxIndex(s[..|s| - 1]);
      if s[|s| - 1] > s[i] then |s| - 1 else i
  }

  function WithCorrection(s: seq<int>, total: int): (r: seq<int>)
    requires s != []
    ensures |r| == |s|
  {
    var gap := total - Sum(s);
    if gap == 0 then s
    else
      var i := FirstMaxIndex(s);
      s[i := s[i] + gap]
  }

  // ---------------------------------------------------------------------
  // The whole computation

  /** The final targets in participant order, or the first unknown
      participant id a pledge names. */
  function Allocate(total: int, parts: seq<int>, overpays: seq<Pledge>, bids: seq<Pledge>)
    : (r: Result<seq<int>>)
    ensures r.Ok? ==> |r.value| == |parts|
  {
    if parts == [] then Ok([])
    else
      match WithOverpays(EqualSplit(total, |parts|), parts, overpays)
      case Err(e) => Err(e)
      case Ok(s) =>
        match WithBids(s, parts, bids)
        case Err(e) => Err(e)
        case Ok(s') => Ok(WithCorrection(s', total))
  }

  /** The returned dictionary: participant id to final target. */
  function Allocations(total: int, parts: seq<int>, overpays: seq<Pledge>, bids: seq<Pledge>)
    : (r: Result<map<int, int>>)
    requires Distinct(parts)
    ensures r.Ok? ==> r.value.Keys == set p | p in parts
  {
    match Allocate(total, parts, overpays, bids)
    case Err(e) => Err(e)
    case Ok(amounts) => Ok(ToMap(parts, amounts))
  }
}
