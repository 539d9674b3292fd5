/**
 * An auction that the creation check accepts although its eligibilities are listed in another order than its bidders.
 * Round 2 opens, and a bidder then holds more licences than the eligibility they are subtracted from.
 */
module MisalignedAuction {
  import opened Tally
  import opened Basics
  import opened AuctionSetup
  import opened BidLoop
  import opened Bids
  import opened Auction

  const FIRST := Principal("org", "first")

  const SECOND := Principal("org", "second")

  /** Bidder 1 is entitled to two licences and bidder 2 to one, but the list begins with bidder 2. */
  function Misaligned(): Setup {
    Setup("spectrum", [Territory(1, true, 10.0, [Channel(1, 0), Channel(2, 0)])],
          [Bidder(1, FIRST), Bidder(2, SECOND)], [Eligibility(2, 1), Eligibility(1, 2)], 0, 10)
  }

  const TWO := Bid(7, 1, [Demand(1, 2, 10.0)])

  const ONE := Bid(7, 1, [Demand(1, 1, 10.0)])

  lemma Vectors()
    ensures var s := Misaligned();
            s.TerritoryIds() == [1] && s.Supply() == [2] && s.InitialEligibilities() == [1, 2] && BidderIds(s) == [1, 2]
  {
  }

  lemma Lookups()
    ensures var s := Misaligned();
            && EligibilityNumber(s.eligibilities, 1) == Some(2) && EligibilityNumber(s.eligibilities, 2) == Some(1)
            && Listed(s) && SubmitterId(s.bidders, FIRST) == 1 && SubmitterId(s.bidders, SECOND) == 2
            && SubmitterIndex(s, FIRST) == Some(0) && SubmitterIndex(s, SECOND) == Some(1)
  {
    var s := Misaligned();
    Vectors();
    assert s.eligibilities[1..][0] == Eligibility(1, 2);
    assert s.bidders[1..][0] == Bidder(2, SECOND);
    assert FIRST != SECOND;
    assert Position([1, 2], 1) == 0;
    assert [1, 2][1..] == [2];
    assert Position([1, 2], 2) == 1;
  }

  lemma NotCovered()
    ensures CheckValidity(Misaligned()) && !Aligned(Misaligned()) && !Covered(Misaligned())
  {
    var s := Misaligned();
    Vectors();
    Lookups();
    assert s.eligibilities[0].bidderId != s.bidders[0].id;
    assert Sum([2]) == 2 + Sum([]);
    assert Min(EligibilityNumber(s.eligibilities, s.bidders[0].id).value, Sum(s.Supply())) > s.eligibilities[0].number;
  }

  /** The state in round 1 with these bids. */
  function InRound1(bids: seq<Bid>): State {
    State(ClockPhase, 1, true, [[10.0], [0.0]], [[], [11.0]], [[], [1, 2]], [[], bids], [[]], [[]], [], [], [])
  }

  lemma ClockPrice()
    ensures Raised(Misaligned(), [10.0]) == [11.0]
  {
    var s := Misaligned();
    assert s.incrementPercent as real / 100.0 == 0.1;
    assert Factor(s) == 1.1;
    assert 10.0 * 1.1 == 11.0;
    assert Raised(s, [10.0])[0] == 10.0 * Factor(s);
  }

  lemma RoundOpens()
    ensures StartRound(Misaligned(), Initialize(Misaligned())) == InRound1([NO_BID, NO_BID])
  {
    var s := Misaligned();
    Vectors();
    assert s.InitialPrices() == [10.0];
    ClockPrice();
    assert seq(s.TerritoryCount(), _ => 0.0) == [0.0];
    assert seq(s.BidderCount(), _ => NO_BID) == [NO_BID, NO_BID];
  }

  lemma BidsStored()
    ensures StoreBid(Misaligned(), InRound1([NO_BID, NO_BID]), 0, TWO) == InRound1([TWO, NO_BID])
    ensures StoreBid(Misaligned(), InRound1([TWO, NO_BID]), 1, ONE) == InRound1([TWO, ONE])
  {
    Replaced(NO_BID, NO_BID, TWO);
    Replaced(TWO, NO_BID, ONE);
    Replaced<seq<Bid>>([], [NO_BID, NO_BID], [TWO, NO_BID]);
    Replaced<seq<Bid>>([], [TWO, NO_BID], [TWO, ONE]);
  }

  lemma RowsIn(bids: seq<Bid>)
    requires |bids| == 2
    ensures Rows(Misaligned(), InRound1(bids), 1)
  {
  }

  /** Both bids pass the checks of round 1, which look eligibility up by id. */
  lemma BothAccepted(bids: seq<Bid>)
    requires |bids| == 2
    ensures var s, a := Misaligned(), InRound1(bids);
            && Rows(s, a, |a.licences|) && Listed(s)
            && BidCheck(s, a, FIRST, TWO) == Success && BidCheck(s, a, SECOND, ONE) == Success
  {
    var s, a := Misaligned(), InRound1(bids);
    Vectors();
    Lookups();
    RowsIn(bids);
    hide Rows, Listed, EligibilityNumber, SubmitterId;
    assert Position([1], 1) == 0;
    assert TWO.demands[..0] == [] && ONE.demands[..0] == [];
    assert Quantities(TWO.demands) == [2] && Quantities(ONE.demands) == [1];
    assert Sum([2]) == 2 + Sum([]) && Sum([1]) == 1 + Sum([]);
    assert DemandCheck(s, a, 2, TWO.demands, 0) == Success;
    assert DemandCheck(s, a, 1, ONE.demands, 0) == Success;
  }

  lemma OneId()
    ensures SortIds([1]) == [1]
  {
    assert SortIds([]) == [];
    assert InsertId(1, []) == [1];
  }

  lemma Complete(bid: Bid, quantity: nat)
    requires bid.demands == [Demand(1, quantity, 10.0)]
    ensures FilledDemands(Misaligned(), bid.demands, [10.0]) == bid.demands
    ensures TargetRow(Misaligned(), bid.demands, [10.0]) == bid.demands && Quantities(bid.demands) == [quantity]
  {
    var s := Misaligned();
    Vectors();
    OneId();
    assert Ids(bid.demands) == [1];
    assert Outside([1], [1]) == Outside([], [1]) == [];
    assert MissingDemands(s, bid.demands, [10.0]) == [];
    assert Position([1], 1) == 0;
    assert TargetOf(bid.demands, 1, 10.0) == bid.demands[0];
  }

  /** Round 1 grants both demands. */
  function Granted(): State {
    State(ClockPhase, 1, false, [[10.0], [10.0]], [[], [11.0]], [[], [1, 2]], [[], [TWO, ONE]], [[]], [[], [[2], [1]]],
          [], [], [])
  }

  lemma Ready()
    ensures CanEvaluate(Misaligned(), InRound1([TWO, ONE]).(active := false))
  {
  }

  lemma Filled()
    ensures var s, a := Misaligned(), InRound1([TWO, ONE]).(active := false);
            CanEvaluate(s, a) && FillMissing(s, a, 7) == a
  {
    var s, a := Misaligned(), InRound1([TWO, ONE]).(active := false);
    Ready();
    Complete(TWO, 2);
    Complete(ONE, 1);
    hide FilledDemands, CanEvaluate;
    assert FilledRow(s, [TWO, ONE], 7, 1, [10.0]) == [TWO, ONE];
    Replaced<seq<Bid>>([], [TWO, ONE], [TWO, ONE]);
  }

  lemma Processed()
    ensures var s, a := Misaligned(), InRound1([TWO, ONE]).(active := false);
            CanEvaluate(s, a) && InitialRound(s, a) == Granted()
  {
    var s, a := Misaligned(), InRound1([TWO, ONE]).(active := false);
    Ready();
    Complete(TWO, 2);
    Complete(ONE, 1);
    hide TargetRow, Quantities, CanEvaluate;
    assert Targets(s, a, 1) == [TWO.demands, ONE.demands];
    assert QuantityTable([TWO.demands, ONE.demands]) == [[2], [1]];
    assert a.licences[..1] == [[]] && a.posted[..1] == [[10.0]] && s.InitialPrices() == [10.0];
  }

  /** Three licences are demanded and two are for sale, so the clock phase goes on. */
  lemma Round2Opens()
    ensures var s := Misaligned();
            && CanConclude(s, Granted())
            && var (a, code) := Conclude(s, Granted());
               && code == Success && a.phase == ClockPhase && a.round == 2
               && a.licences == [[], [[2], [1]]] && a.eligibility == [[], [1, 2], [1, 2]]
  {
    var s, p := Misaligned(), Granted();
    Vectors();
    var table: Table := [[2], [1]];
    assert Rectangular(table, 2, 1) && p.licences[1] == table;
    assert Column(table, 0) == [2, 1];
    assert Sum([2, 1]) == 2 + Sum([1]) && Sum([1]) == 1 + Sum([]) && Sum([2]) == 2 + Sum([]);
    var excess := ExcessOf(s, table);
    assert excess == [1];
    assert !NoExcess(excess) by { assert excess[0] > 0; }
    assert NextEligibilities(s, [1, 2], table) == [1, 2];
    ClockPrice();
  }

  /**
   * The creation check accepts the setup, both bids are accepted, and the next round opens with the first bidder
   * holding two licences at an eligibility of one: what is left of it would be negative, and wraps around in the
   * unsigned subtraction of the program.
   */
  lemma EligibilityUnderflows()
    ensures var s := Misaligned();
            && CheckValidity(s) && !Covered(s)
            && StartRound(s, Initialize(s)) == InRound1([NO_BID, NO_BID])
            && Rows(s, InRound1([NO_BID, NO_BID]), 1) && Rows(s, InRound1([TWO, NO_BID]), 1) && Listed(s)
            && BidCheck(s, InRound1([NO_BID, NO_BID]), FIRST, TWO) == Success
            && StoreBid(s, InRound1([NO_BID, NO_BID]), 0, TWO) == InRound1([TWO, NO_BID])
            && BidCheck(s, InRound1([TWO, NO_BID]), SECOND, ONE) == Success
            && StoreBid(s, InRound1([TWO, NO_BID]), 1, ONE) == InRound1([TWO, ONE])
    ensures var s, ended := Misaligned(), InRound1([TWO, ONE]).(active := false);
            && CanEvaluate(s, ended) && FillMissing(s, ended, 7) == ended && InitialRound(s, ended) == Granted()
            && CanConclude(s, Granted())
            && var a := Conclude(s, Granted()).0;
               && a.round == 2 && |a.licences| == 2 && |a.licences[1]| == 2 && |a.eligibility| == 3
               && |a.eligibility[2]| == 2 && Sum(a.licences[1][0]) > a.eligibility[2][0]
  {
    hide CheckValidity, Covered, Rows, Listed, BidCheck, CanEvaluate, FillMissing, InitialRound, Conclude, CanConclude,
         StartRound, Initialize, StoreBid;
    NotCovered();
    RoundOpens();
    BidsStored();
    RowsIn([NO_BID, NO_BID]);
    RowsIn([TWO, NO_BID]);
    BothAccepted([NO_BID, NO_BID]);
    BothAccepted([TWO, NO_BID]);
    Filled();
    Processed();
    Round2Opens();
    assert Sum([2]) == 2 + Sum([]);
  }
}
