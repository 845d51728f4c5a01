/** Worked allocations over three participants with ids 1, 2 and 3. */
module Scenarios {
  import opened Sums
  import opened Pledges
  import opened Ordering
  import opened Allocation
  import opened Properties

  /** The sum of a three-entry sequence, unfolded. */
  lemma SumOfThree(a: int, b: int, c: int)
    ensures Sum([a, b, c]) == a + b + c
  {
    assert [a, b, c][..2] == [a, b];
    assert [a, b][..1] == [a];
    assert [a][..0] == [];
    assert Sum([a]) == a;
    assert Sum([a, b]) == a + b;
  }

  /** 100 cents over three: the one remainder cent goes to the first. */
  lemma ThreeWaySplit()
    ensures Allocate(100, [1, 2, 3], [], []) == Ok([34, 33, 33])
  {
    var s := EqualSplit(100, 3);
    assert s == [34, 33, 33];
    SumOfThree(34, 33, 33);
    assert WithCorrection(s, 100) == s;
  }

  /** A fixed 50-cent overpay is cancelled by the final correction: the
      overpayer then holds the largest target and absorbs the whole gap. */
  lemma FixedOverpayIsCorrectedAway()
    ensures Allocate(300, [1, 2, 3], [Pledge(1, Fixed, 50)], []) == Ok([100, 100, 100])
  {
    var s := EqualSplit(300, 3);
    assert s == [100, 100, 100];
    assert IndexOf([1, 2, 3], 1) == Some(0);
    var o := WithOverpay(s, 0, Pledge(1, Fixed, 50));
    assert o == [150, 100, 100];
    assert WithOverpays(s, [1, 2, 3], [Pledge(1, Fixed, 50)]) == WithOverpays(o, [1, 2, 3], []);
    SumOfThree(150, 100, 100);
    assert FirstMaxIndex(o) == 0;
    assert WithCorrection(o, 300) == [100, 100, 100];
  }

  /** Handing on 50 cents from the first of `[50, 100, 100]`: the other
      two split them evenly, with no leftover cent. */
  lemma EvenHalves()
    ensures Redistributed([50, 100, 100], 0, 50) == [50, 125, 125]
  {
    var t := [50, 100, 100];
    SumOfThree(0, 100, 100);
    assert t[0 := 0] == [0, 100, 100];
    assert Denominator(t, 0) == 200;
    assert Shares(t, 0, 50) == [0, 25, 25];
    SumOfThree(0, 25, 25);
    assert ExtraCents(t, 0, 50) == [];
  }

  /** A 50% bid by the first of three on 300 cents: the bidder pays 50 and
      the other two 125 each. */
  lemma HalfBid()
    ensures Allocate(300, [1, 2, 3], [], [Pledge(1, Percent, 5000)]) == Ok([50, 125, 125])
  {
    var s := EqualSplit(300, 3);
    assert s == [100, 100, 100];
    assert IndexOf([1, 2, 3], 1) == Some(0);
    assert Shortfall(100, Pledge(1, Percent, 5000)) == 50;
    assert s[0 := 50] == [50, 100, 100];
    EvenHalves();
    assert WithBid(s, 0, Pledge(1, Percent, 5000)) == [50, 125, 125];
    assert WithBids(s, [1, 2, 3], [Pledge(1, Percent, 5000)]) == WithBids([50, 125, 125], [1, 2, 3], []);
    SumOfThree(50, 125, 125);
  }

  /** Handing on one cent from the first of `[99, 100, 100]`: every
      floored share is 0, and the single leftover cent goes to the first of
      the two equal largest targets in participant order. */
  lemma OneCentTieGoesToFirst()
    ensures Redistributed([99, 100, 100], 0, 1) == [99, 101, 100]
  {
    var t := [99, 100, 100];
    OneCentShares();
    TieKeepsListOrder();
    assert ExtraCents(t, 0, 1) == [1];
    assert Bump([0, 0, 0], [1]) == [0, 1, 0];
  }

  /** Every floored share of one cent among `[100, 100]` is 0. */
  lemma OneCentShares()
    ensures Shares([99, 100, 100], 0, 1) == [0, 0, 0]
    ensures Sum(Shares([99, 100, 100], 0, 1)) == 0
  {
    var t := [99, 100, 100];
    SumOfThree(0, 100, 100);
    assert t[0 := 0] == [0, 100, 100];
    assert Shares(t, 0, 1) == [0, 0, 0];
    SumOfThree(0, 0, 0);
  }

  /** The stable descending sort keeps the two tied others in list order. */
  lemma TieKeepsListOrder()
    ensures SortDesc([99, 100, 100], Others(3, 0)) == [1, 2]
  {
    var t := [99, 100, 100];
    assert Others(3, 0) == [1, 2];
    assert [1, 2][..1] == [1];
    assert SortDesc(t, [1]) == [1];
  }

  /** A fixed 1-cent bid by the first of three on 300 cents. */
  lemma OneCentBid()
    ensures Allocate(300, [1, 2, 3], [], [Pledge(1, Fixed, 1)]) == Ok([99, 101, 100])
  {
    var s := EqualSplit(300, 3);
    assert s == [100, 100, 100];
    assert IndexOf([1, 2, 3], 1) == Some(0);
    assert s[0 := 99] == [99, 100, 100];
    OneCentTieGoesToFirst();
    assert WithBid(s, 0, Pledge(1, Fixed, 1)) == [99, 101, 100];
    assert WithBids(s, [1, 2, 3], [Pledge(1, Fixed, 1)]) == WithBids([99, 101, 100], [1, 2, 3], []);
    SumOfThree(99, 101, 100);
  }

  /** In the 1-cent bid, the second participant gains one cent beyond its
      floored share and the third gains nothing beyond it, so the leftover
      cent rule applies with `j` = 1 and `k` = 2. */
  lemma OneCentBidExtraGain()
    ensures var s := [100, 100, 100];
      var p := Pledge(1, Fixed, 1);
      && Sum(s[0 := 0]) > 0
      && ExtraGain(s, WithBid(s, 0, p), 0, Shortfall(s[0], p), 1) == 1
      && ExtraGain(s, WithBid(s, 0, p), 0, Shortfall(s[0], p), 2) == 0
  {
    var s := [100, 100, 100];
    var p := Pledge(1, Fixed, 1);
    SumOfThree(0, 100, 100);
    assert s[0 := 0] == [0, 100, 100];
    assert s[0 := 99] == [99, 100, 100];
    OneCentTieGoesToFirst();
    assert WithBid(s, 0, p) == [99, 101, 100];
  }

  /** A percentage overpay applies to the target as the earlier overpays
      left it: two 10% overpays by the first participant turn 100 cents
      into 110 and then 121, not 120. The final correction takes the 21
      surplus cents back from that participant. */
  lemma PercentOverpaysCompound()
    ensures WithOverpays([100, 100, 100], [1, 2, 3], [Pledge(1, Percent, 1000), Pledge(1, Percent, 1000)])
      == Ok([121, 100, 100])
    ensures Allocate(300, [1, 2, 3], [Pledge(1, Percent, 1000), Pledge(1, Percent, 1000)], [])
      == Ok([100, 100, 100])
  {
    var p := Pledge(1, Percent, 1000);
    var s := EqualSplit(300, 3);
    assert s == [100, 100, 100];
    assert IndexOf([1, 2, 3], 1) == Some(0);
    assert OverpayAmount(100, p) == 10;
    assert OverpayAmount(110, p) == 11;
    assert WithOverpay(s, 0, p) == [110, 100, 100];
    assert WithOverpay([110, 100, 100], 0, p) == [121, 100, 100];
    assert WithOverpays(s, [1, 2, 3], [p, p]) == WithOverpays([110, 100, 100], [1, 2, 3], [p]);
    assert WithOverpays([110, 100, 100], [1, 2, 3], [p]) == WithOverpays([121, 100, 100], [1, 2, 3], []);
    SumOfThree(121, 100, 100);
    assert FirstMaxIndex([121, 100, 100]) == 0;
    assert WithCorrection([121, 100, 100], 300) == [100, 100, 100];
  }

  /** When the others' targets add up to 0, the `or 1` guard divides by 1
      and each leftover cent is one of the others' floored shares of 0: a
      3-cent shortfall taken from the first of three participants whose
      others hold 0 cents reaches only the 2 others, so 1 cent is lost
      until the final correction. */
  lemma ZeroOthersLoseCents()
    ensures WithBid([3, 0, 0], 0, Pledge(1, Fixed, 3)) == [0, 1, 1]
    ensures Sum([3, 0, 0]) == 3 && Sum([0, 1, 1]) == 2
  {
    var p := Pledge(1, Fixed, 3);
    assert Shortfall(3, p) == 3;
    assert Lowered([3, 0, 0], 0, 3) == [0, 0, 0];
    BidRedistributes([3, 0, 0], 0, p);
    ZeroOthersRedistribution();
    SumOfThree(3, 0, 0);
    SumOfThree(0, 1, 1);
  }

  lemma ZeroOthersRedistribution()
    ensures Redistributed([0, 0, 0], 0, 3) == [0, 1, 1]
  {
    ZeroOthersShares();
    ZeroOthersOrder();
    assert ExtraCents([0, 0, 0], 0, 3) == [1, 2];
    assert Bump([0, 0, 0], [1, 2]) == [0, 1, 1];
  }

  lemma ZeroOthersShares()
    ensures Shares([0, 0, 0], 0, 3) == [0, 0, 0]
    ensures Sum(Shares([0, 0, 0], 0, 3)) == 0
  {
    var t := [0, 0, 0];
    SumOfThree(0, 0, 0);
    assert t[0 := 0] == t;
    assert Denominator(t, 0) == 1;
  }

  lemma ZeroOthersOrder()
    ensures SortDesc([0, 0, 0], Others(3, 0)) == [1, 2]
  {
    var t := [0, 0, 0];
    assert Others(3, 0) == [1, 2];
    assert [1, 2][..1] == [1];
    assert SortDesc(t, [1]) == Insert(t, 1, []) == [1];
    assert Insert(t, 2, [1]) == [1] + Insert(t, 2, []) == [1, 2];
    assert SortDesc(t, [1, 2]) == Insert(t, 2, SortDesc(t, [1]));
  }
}
