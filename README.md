# Expense split allocation engine

This project models `compute_allocations` from `main.py`. The function
divides an event's total among its participants. Money is held as integer
cents, and every participant carries one mutable target. The targets go
through four phases, in this order:

1. **Equal split.** Everyone starts at `total // N`. The first
   `total - base * N` participants in list order get one extra cent.
2. **Volunteer overpays.** Each overpay, in pledge order, raises its own
   participant's current target. The raise is a fixed number of cents, or
   a rounded percentage of the current target.
3. **Underpay bids.** Each bid, in pledge order, lowers the bidder's target
   by a shortfall. The shortfall is a rounded percentage of the target, or
   a fixed amount capped at the target. The shortfall is then handed to
   every other participant:
   - each gets the floor of its share in proportion to its current target;
   - the cents left over from flooring go one each to the others with the
     largest current targets. The sort is stable, so ties go to the
     participant earlier in list order.
4. **Final correction.** The whole gap between the total and the current
   sum goes to the first participant holding the largest target.

An overpay always looks its participant up in the targets dictionary,
whatever its value type (main.py:127). A bid looks its participant up only
when its value type is percent or fixed. Any other bid has a shortfall of 0
and is skipped before any lookup (main.py:132-138). A lookup of an id that
is not in the event raises `KeyError`. The model returns
`Err(UnknownParticipant(pid))` instead. With no participants, nothing is
looked up and the result is empty (main.py:111).

The model has two layers:

- Module `Allocation` gives each phase as a function on the sequence of
  targets, in participant order (`EqualSplit`, `WithOverpays`, `WithBids`,
  `WithCorrection`, and `Allocate` for the whole run).
- Module `Engine` is the imperative engine the source runs. It keeps the
  targets in an array indexed by participant position; the source's
  dictionary iterates in that same order. Every method in it is proved to
  compute its phase's function.

Module `Properties` proves what the phases guarantee:

- conservation of the total;
- frame conditions, i.e. which entries each phase may change;
- the proportional-share bounds;
- who receives the leftover cents;
- exactly when the computation fails.

Module `Ordering` models the stable descending sort as an insertion sort. It
proves that sort is a permutation, ordered by (target descending, position
ascending). It also proves that this order admits exactly one arrangement,
so any stable descending sort gives the same list.

A pledge's `value` is its two-decimal column scaled by 100. For a fixed
pledge that is cents. For a percent pledge it is hundredths of a percent
(`PercentScale` = 10000).

The final correction (main.py:151-153) also cancels any overpay surplus.
With 300 cents and a fixed +50 overpay by the first participant, the gap is
-50. It lands on the overpayer, who holds the largest target, and everyone
owes 100 cents (`Scenarios.FixedOverpayIsCorrectedAway`,
`Properties.AllocationConservesTotal`). Percentage overpays compound: each
applies to the target as the earlier pledges left it. Two 10% overpays by
the first of three participants holding 100 cents each give 121 before the
correction, not 120 (`Scenarios.PercentOverpaysCompound`).

## Model

| member | source | states |
|---|---|---|
| Engine.ComputeAllocations | main.py:108-155 | returns exactly `Allocations` of its inputs: a map with one key per participant id, or the first unknown id a pledge names |
| Engine.AddOverpay | main.py:122-127 | the array afterwards is the old one with the overpay added to participant `i` only |
| Engine.PlaceBid | main.py:131-148 | the array afterwards is `WithBid` of the old one: unchanged when the shortfall is not positive, otherwise the bidder lowered and the shortfall redistributed |
| Engine.Redistribute | main.py:140-148 | the array afterwards is `Redistributed` of the old one: floored shares plus leftover cents to every participant except the bidder |
| Engine.OthersTotal | main.py:140-141 | the result is the sum of every target except the bidder's |
| Engine.FlooredShares | main.py:142 | a fresh array holding each other participant's floored proportional share, and 0 for the bidder |
| Engine.ArraySum | main.py:143 | the result is the sum of the array |
| Engine.GiveLeftoverCents | main.py:145-146 | adds one to the entry of each listed participant, once per occurrence |
| Engine.AddShares | main.py:147-148 | adds each other participant's share to its target and leaves the bidder's target unchanged |
| Engine.CorrectGap | main.py:151-153 | the array afterwards is `WithCorrection` of the old one |
| Engine.Lower | main.py:139 | the array afterwards is `Lowered` of the old one: the bidder's target drops by the shortfall and nothing else changes |
| Engine.Increment | main.py:146 | the array afterwards is the old one with entry `i` raised by one and nothing else changed |
| Engine.FirstMax | main.py:153 | the first position holding the largest target: nothing is larger and everything before it is smaller |
| Allocation.EqualSplit | main.py:112-117 | one target per participant; what the split is (base or base + 1, the extra cents to the first `remainder`, summing to the total) is `Properties.EqualSplitShape` |
| Allocation.OverpayAmount | main.py:122-126 | a percent overpay adds the exact percentage of the current target to within half a cent; a fixed one adds exactly its value; any other adds 0 |
| Allocation.WithOverpay | main.py:122-127 | the length is unchanged; that only the overpayer's entry changes, and by how much, is `Properties.OverpayTouchesOnlyItsParticipant` |
| Allocation.WithOverpays | main.py:121-127 | a success has one target per participant; when the loop fails, and with which id, is `Properties.OverpaysFail` |
| Allocation.Shortfall | main.py:132-136 | a percent bid takes the exact percentage of the current target to within half a cent; a fixed one takes the smaller of its value and the target; any other takes 0 |
| Allocation.Lowered | main.py:139 | the length is unchanged; the drop by exactly the shortfall is `Properties.BidConservesTotal` and `Engine.Lower` |
| Allocation.Bump | main.py:145-146 | the length is unchanged; one cent per occurrence among the receivers is `Allocation.BumpCounts` |
| Allocation.AddToOthers | main.py:147-148 | the length and the bidder's entry are unchanged; what each other participant ends at is `Properties.RedistributedAt` |
| Allocation.WithBid | main.py:131-148 | the length is unchanged; the bid's meaning is `Properties.BidWithoutShortfallIsNoop`, `Properties.BidderStaysNonNegative`, `Properties.BidConservesTotal`, `Properties.BidSharesAreProportional` and `Properties.BidExtraCentsToLargest` |
| Allocation.WithBids | main.py:130-148 | a success has one target per participant; when the loop fails, and with which id, is `Properties.BidsFail` |
| Allocation.WithCorrection | main.py:150-153 | the length is unchanged; the restored total and the single changed entry are `Properties.CorrectionRestoresTotal` and `Properties.CorrectionTouchesOnlyFirstMax` |
| Allocation.BumpCounts | main.py:145-146 | after the leftover cents are added, entry `j` has risen by the number of times `j` occurs among the receivers |
| Allocation.FirstMaxIndex | main.py:153 | a position no target exceeds, before which every target is strictly smaller |
| Allocation.Denominator | main.py:141 | never zero: the others' total, or 1 when that total is 0 |
| Allocation.Shares | main.py:142 | one share per participant, with the bidder's being 0 |
| Allocation.ExtraCents | main.py:145 | every leftover-cent receiver is a participant position |
| Allocation.Redistributed | main.py:139-148 | the bidder's entry is left as it is and the length is unchanged |
| Allocation.Allocate | main.py:108-153 | a successful result has one target per participant |
| Allocation.Allocations | main.py:155 | the result's keys are exactly the participant ids |
| Rounding.FloorDiv | main.py:142 | Python's `//`: the floor of the exact quotient, for a divisor of either sign |
| Rounding.RoundHalfEven | main.py:124 | the integer nearest to `n / d`, and on an exact half the even one |
| Rounding.PercentOf | main.py:134 | within half a cent of the exact percentage of the target |
| Rounding.PercentWithinTarget | main.py:134 | a percentage in [0, 100] of a non-negative target lies between 0 and the target |
| Pledges.IndexOf | main.py:124-127 | the dictionary lookup: absent exactly when the id is not a participant, otherwise the id's first position |
| Pledges.ToMap | main.py:155 | the result dictionary: keys are the participant ids and each maps to its participant's amount |
| Ordering.Others | main.py:140 | every position except the bidder's, each once, in participant order |
| Ordering.Insert | main.py:145 | inserting adds exactly the new participant to the list |
| Ordering.SortDesc | main.py:145 | the sorted list is a permutation of its input |
| Ordering.InsertOrdered | main.py:145 | inserting into an ordered list keeps it ordered |
| Ordering.SortDescOrdered | main.py:145 | the sort of the others is ordered by target descending, then participant order |
| Ordering.OrderedUnique | main.py:145 | two ordered permutations of the same participants are equal, so the stable sort's output is determined |
| Ordering.SliceTo | main.py:145 | Python's `xs[:k]` for non-negative, oversized and negative `k` |
| Properties.EqualSplitShape | main.py:112-117 | each target is `base` or `base + 1`; `base + 1` exactly for the first `remainder` participants; `remainder` is in `[0, N)`; and the split sums to the total |
| Properties.OverpayTouchesOnlyItsParticipant | main.py:121-127 | only the overpayer's target changes; a fixed overpay adds exactly its value; an unset one adds nothing; the sum moves by the amount added |
| Properties.PercentOverpayNeverLowers | main.py:123-124 | a non-negative percent overpay on a non-negative target never lowers it |
| Properties.BidderStaysNonNegative | main.py:133-139 | a fixed shortfall is `min(value, target)`; a bidder starting non-negative ends between 0 and its old target, provided a percent bid is between 0% and 100% |
| Properties.BidWithoutShortfallIsNoop | main.py:137-138 | a bid whose shortfall is not positive leaves every target unchanged |
| Properties.LeftoverBounds | main.py:141-145 | whenever the others' total is not 0, whatever the signs of the targets, the floored shares leave between 0 and (others - 1) cents undistributed |
| Properties.LeftoverRemainders | main.py:141-143 | the flooring remainders sum to `shortfall * d - distributed * d`, which lies between 0 and `(others) * (d - 1)` for a positive others' total `d`, and between `(others) * (d + 1)` and 0 for a negative one |
| Properties.ShareRemainders | main.py:142 | each other participant's floored share leaves a remainder in `[0, d)` of its exact proportional part for a positive `d`, and in `(d, 0]` for a negative one |
| Properties.ExtraIsPrefix | main.py:145 | whenever the others' total is not 0, the leftover cents go to a proper prefix of the stable descending order |
| Properties.ExtraAtMostOnce | main.py:145-146 | whatever the others' total, no participant receives more than one leftover cent, and the bidder none |
| Properties.BumpSum | main.py:145-146 | handing out one cent per receiver adds their number to the sum |
| Properties.RedistributionAddsShortfall | main.py:140-148 | whenever the others' total is not 0, redistribution adds exactly the shortfall to the sum |
| Properties.ExtraGoesFirst | main.py:145 | whenever the others' total is not 0, a receiver of a leftover cent comes before every other participant that got none |
| Properties.BidConservesTotal | main.py:131-148 | for a positive shortfall, the bidder drops by exactly the shortfall, and the total of all targets is unchanged whenever the others' targets do not sum to 0 |
| Properties.ShortfallHandedOn | main.py:139-148 | lowering the bidder by any amount and redistributing the same amount keeps the total whenever the others' targets do not sum to 0 |
| Properties.BidSharesAreProportional | main.py:140-148 | each other participant gains its floored proportional share plus 0 or 1 cent (`ExtraGain` in [0, 1]), and never loses |
| Properties.ShareProportionalAt | main.py:140-148 | the same for any positive shortfall handed on from a lowered bidder |
| Properties.RedistributedAt | main.py:142-148 | each other participant ends at its target plus its floored share plus the leftover cents it received |
| Properties.BidExtraCentsToLargest | main.py:145-146 | when the others' targets have a positive sum, a participant that gained one cent beyond its floored share precedes one that gained none: larger target, or equal target and earlier in list order |
| Properties.ExtraCentToLargestAt | main.py:145-146 | the same for any positive shortfall handed on from a lowered bidder |
| Properties.OrderedExtra | main.py:140-145 | whenever the others' total is not 0, the receivers of leftover cents are a prefix of a list ordered by target descending that holds every other participant |
| Properties.OthersOnce | main.py:140 | each other participant occurs once in the list of others, and the bidder not at all |
| Properties.CorrectionRestoresTotal | main.py:151-153 | after the correction the targets sum to exactly the total |
| Properties.CorrectionTouchesOnlyFirstMax | main.py:151-153 | the correction changes no participant except the first holding the largest target |
| Properties.AllocationConservesTotal | main.py:111-153 | no participants gives the empty result; otherwise a successful result sums to exactly the total, overpays included |
| Properties.SoleParticipantPaysAll | main.py:111-153 | whenever the computation succeeds, a lone participant owes the whole total |
| Properties.OverpaysFail | main.py:121-127 | the overpay loop fails exactly when some overpay names an unknown id, and then with the first such id |
| Properties.BidsFail | main.py:131-136 | the bid loop fails exactly when some percent or fixed bid names an unknown id, and then with the first such id |
| Properties.AllocationFailsOnlyOnUnknownIds | main.py:111-136 | the computation fails exactly when there are participants and some overpay, or some percent or fixed bid, names an unknown id |
| Scenarios.ThreeWaySplit | main.py:112-117 | 100 cents over three gives 34, 33, 33 |
| Scenarios.FixedOverpayIsCorrectedAway | main.py:121-153 | 300 cents with a fixed +50 overpay by the first gives 100 each |
| Scenarios.HalfBid | main.py:131-148 | 300 cents with a 50% bid by the first gives 50, 125, 125 |
| Scenarios.OneCentTieGoesToFirst | main.py:140-148 | one cent from the first of 99, 100, 100 goes to the second, the earlier of the two tied largest |
| Scenarios.OneCentBidExtraGain | main.py:140-148 | in a fixed 1-cent bid by the first of three holding 100 cents each, the second participant gains one cent beyond its floored share and the third none, meeting the premises of `Properties.BidExtraCentsToLargest` |
| Scenarios.OneCentBid | main.py:131-153 | 300 cents with a fixed 1-cent bid by the first gives 99, 101, 100 |
| Scenarios.PercentOverpaysCompound | main.py:121-153 | two 10% overpays by the first of three holding 100 cents each raise it to 121, not 120; the final correction brings everyone back to 100 |
| Scenarios.ZeroOthersLoseCents | main.py:139-148 | a fixed 3-cent bid by the first of 3, 0, 0 gives 0, 1, 1: the others' total is 0, the guard divides by 1, and 1 of the 3 cents is not handed on |

## Left out

- Database access (main.py:109-110, 120, 130): the event total, the participants, and the active overpays and bids are parameters. A missing event is not modelled.
- `cents` and `money` (main.py:105-106): the total arrives in integer cents, and a fixed pledge's value arrives already in cents. The result holds integer cents, not the rounded float dollars the source returns.
- Float arithmetic in the percentages (main.py:124, 134): the model rounds the exact rational `target * value / 100` half-to-even. Python's rounding of a float product can differ when the product is not exactly representable.
- Which pledges are active (main.py:223) is caller policy; the engine receives the active lists.
- The HTTP routes, templates, sessions, ORM models and invite-token flow are outside the engine.
- Engine.ComputeAllocations: requires distinct participant ids, as database primary keys are. With duplicates the source's dictionary would merge entries, which the position-indexed array does not capture.
- Properties.BidSharesAreProportional: stated only when the others' targets are non-negative with a positive sum. "Never loses" needs the non-negative targets: the floored share of a negative target is itself negative.
- Properties.BidExtraCentsToLargest: stated only when the others' targets have a positive sum, because its premises measure the gain with `ExtraGain`, which divides by that sum. For any non-zero sum, `Properties.ExtraGoesFirst` states the same order on the leftover-cent receivers directly.
- Properties.BidConservesTotal: not stated when the others' targets sum to 0. Then the `or 1` guard (main.py:141) divides by 1, and the cents handed on need not equal the shortfall. `Scenarios.ZeroOthersLoseCents` shows a bid that loses a cent this way. The final correction restores the total afterwards (`Properties.AllocationConservesTotal`).
- A NULL pledge `value` (main.py:69; the pledge route stores `None` when no value is given, main.py:221-225) is not modelled: `Pledge.value` is an integer. In the source, a percent or fixed pledge with a NULL value raises `TypeError` at `float(...)` or `cents(...)` (main.py:124, 126, 134, 136). For a fixed pledge this happens before the participant is looked up, so it can pre-empt a `KeyError`. A pledge of any other value type never reads its value.
- Allocation.Shares: the bidder holds a 0 entry. The source's `add_map` has no entry for the bidder, and the 0 is never added to a target.
