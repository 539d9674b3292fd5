/**
 * A run of an auction in which a territory with unsold licences ends a round with excess demand at last round's posted
 * price, below the clock price.
 */
module UnsoldAuction {
  import opened Tally
  import opened Basics
  import opened AuctionSetup
  import opened BidLoop
  import opened Bids
  import opened Auction
  import opened AuctionRuns
  import opened AuctionGuarantees

  const OWNER := Principal("org", "owner")

  const ALICE := Principal("org", "alice")

  const BOB := Principal("org", "bob")

  /** Territory 1 has one channel and territory 2 has two; eligibility is kept without activity. */
  function Unsold(): Setup {
    Setup("spectrum",
          [Territory(1, true, 10.0, [Channel(1, 0)]), Territory(2, false, 10.0, [Channel(2, 0), Channel(3, 0)])],
          [Bidder(1, ALICE), Bidder(2, BOB)], [Eligibility(1, 2), Eligibility(2, 3)], 0, 10)
  }

  function Pair(q1: nat, q2: nat): seq<Demand> {
    [Demand(1, q1, 10.0), Demand(2, q2, 10.0)]
  }

  function BidFor(round: nat, q1: nat, q2: nat): Bid {
    Bid(7, round, Pair(q1, q2))
  }

  const PRICES := [10.0, 10.0]

  const CLOCK := [11.0, 11.0]

  // ----- the setup -----

  lemma Vectors()
    ensures var s := Unsold();
            && s.TerritoryIds() == [1, 2] && s.Supply() == [1, 2] && s.InitialEligibilities() == [2, 3]
            && BidderIds(s) == [1, 2] && s.InitialPrices() == PRICES && Sum(s.Supply()) == 3
  {
    assert Sum([1, 2]) == 1 + Sum([2]) && Sum([2]) == 2 + Sum([]);
    assert [1, 2][1..] == [2];
  }

  lemma IsWellFormed()
    ensures WellFormed(Unsold())
  {
    var s := Unsold();
    Vectors();
    assert Aligned(s) by {
      assert BidderIds(s)[0] != BidderIds(s)[1];
    }
    AlignedIsCovered(s);
    assert CheckValidity(s);
  }

  lemma Lookups()
    ensures var s := Unsold();
            && EligibilityNumber(s.eligibilities, 1) == Some(2) && EligibilityNumber(s.eligibilities, 2) == Some(3)
            && Listed(s) && SubmitterId(s.bidders, ALICE) == 1 && SubmitterId(s.bidders, BOB) == 2
            && SubmitterIndex(s, ALICE) == Some(0) && SubmitterIndex(s, BOB) == Some(1)
  {
    var s := Unsold();
    Vectors();
    IsWellFormed();
    hide WellFormed, CheckValidity;
    assert s.eligibilities[1..][0] == Eligibility(2, 3);
    assert s.bidders[1..][0] == Bidder(2, BOB);
    assert Position([1, 2], 1) == 0;
    assert [1, 2][1..] == [2] && Position([2], 2) == 0;
    assert Position([1, 2], 2) == 1;
  }

  lemma ClockPrices()
    ensures Raised(Unsold(), PRICES) == CLOCK
  {
    var s := Unsold();
    assert s.incrementPercent as real / 100.0 == 0.1;
    assert Factor(s) == 1.1 && 10.0 * 1.1 == 11.0;
    var r := Raised(s, PRICES);
    assert r[0] == 10.0 * Factor(s) && r[1] == 10.0 * Factor(s);
  }

  lemma Places()
    ensures Position([1, 2], 1) == 0 && Position([1, 2], 2) == 1
  {
    assert [1, 2][1..] == [2] && Position([2], 2) == 0;
  }

  lemma Sum2(x: nat, y: nat)
    ensures Sum([x, y]) == x + y
  {
    assert [x, y][1..] == [y] && [y][1..] == [];
    assert Sum([y]) == y + Sum([]);
  }

  lemma PairParts(q1: nat, q2: nat)
    ensures Quantities(Pair(q1, q2)) == [q1, q2] && Ids(Pair(q1, q2)) == [1, 2]
  {
  }

  lemma NothingMissing(q1: nat, q2: nat)
    ensures FilledDemands(Unsold(), Pair(q1, q2), PRICES) == Pair(q1, q2)
  {
    var demands := Pair(q1, q2);
    Vectors();
    PairParts(q1, q2);
    TwoIds();
    hide SortIds, Ids, Pair;
    assert [1, 2][1..] == [2] && [2][1..] == [];
    assert Outside([2], [1, 2]) == Outside([], [1, 2]);
    assert MissingIds(Unsold(), demands) == [];
    assert MissingDemands(Unsold(), demands, PRICES) == [];
    assert demands + [] == demands;
  }

  /** A bid for both territories is complete. */
  lemma Complete(q1: nat, q2: nat)
    ensures FilledDemands(Unsold(), Pair(q1, q2), PRICES) == Pair(q1, q2)
    ensures TargetRow(Unsold(), Pair(q1, q2), PRICES) == Pair(q1, q2)
    ensures Quantities(Pair(q1, q2)) == [q1, q2] && Ids(Pair(q1, q2)) == [1, 2]
  {
    var demands := Pair(q1, q2);
    Vectors();
    Places();
    PairParts(q1, q2);
    NothingMissing(q1, q2);
    hide FilledDemands, Ids, Quantities, Position;
    assert TargetOf(demands, 1, 10.0) == demands[0] && TargetOf(demands, 2, 10.0) == demands[1];
    hide TargetOf;
    var row := TargetRow(Unsold(), demands, PRICES);
    assert row[0] == demands[0] && row[1] == demands[1];
  }

  lemma TwoIds()
    ensures SortIds([1, 2]) == [1, 2]
  {
    assert [1, 2][1..] == [2] && [2][1..] == [];
    assert SortIds([]) == [];
    assert InsertId(2, []) == [2];
    assert SortIds([2]) == [2];
    assert InsertId(1, [2]) == [1, 2];
  }

  // ----- round 1 -----

  function InRound1(bids: seq<Bid>): State {
    State(ClockPhase, 1, true, [PRICES, [0.0, 0.0]], [[], CLOCK], [[], [2, 3]], [[], bids], [[]], [[]], [], [], [])
  }

  const NOTHING := [NO_BID, NO_BID]

  function Round1Bids(): seq<Bid> {
    [BidFor(1, 1, 1), BidFor(1, 1, 0)]
  }

  lemma RowsIn1(bids: seq<Bid>)
    requires |bids| == 2
    ensures Rows(Unsold(), InRound1(bids), 1)
  {
  }

  lemma Round1Opens()
    ensures StartRound(Unsold(), Initialize(Unsold())) == InRound1(NOTHING)
    ensures !Initialize(Unsold()).active && Initialize(Unsold()).phase.ClockPhase?
  {
    var s := Unsold();
    Vectors();
    ClockPrices();
    assert seq(s.TerritoryCount(), _ => 0.0) == [0.0, 0.0];
    assert seq(s.BidderCount(), _ => NO_BID) == NOTHING;
  }

  lemma Accepted1(bids: seq<Bid>)
    requires |bids| == 2
    ensures var s, a := Unsold(), InRound1(bids);
            && Rows(s, a, |a.licences|) && Listed(s)
            && BidCheck(s, a, ALICE, BidFor(1, 1, 1)) == Success && BidCheck(s, a, BOB, BidFor(1, 1, 0)) == Success
  {
    var s, a := Unsold(), InRound1(bids);
    RowsIn1(bids);
    Lookups();
    hide Listed, EligibilityNumber, SubmitterId, Rows;
    Checked1(bids, 2, 1, 1);
    Checked1(bids, 3, 1, 0);
  }

  lemma Checked1(bids: seq<Bid>, limit: nat, q1: nat, q2: nat)
    requires |bids| == 2 && q1 <= 1 && q2 <= 2 && q1 + q2 <= limit
    ensures Rows(Unsold(), InRound1(bids), 1)
            && DemandsCheck(Unsold(), InRound1(bids), limit, Pair(q1, q2), 0) == Success
  {
    var s, a, demands := Unsold(), InRound1(bids), Pair(q1, q2);
    RowsIn1(bids);
    Vectors();
    Places();
    PairParts(q1, q2);
    Sum2(q1, q2);
    hide Rows, Position;
    assert demands[..0] == [] && Ids(demands[..1]) == [1];
    assert DemandCheck(s, a, limit, demands, 0) == Success;
    assert DemandCheck(s, a, limit, demands, 1) == Success;
    assert DemandsCheck(s, a, limit, demands, 2) == Success;
    assert DemandsCheck(s, a, limit, demands, 1) == Success;
  }

  lemma Stored1()
    ensures var s, x, y := Unsold(), BidFor(1, 1, 1), BidFor(1, 1, 0);
            && StoreBid(s, InRound1(NOTHING), 0, x) == InRound1([x, NO_BID])
            && StoreBid(s, InRound1([x, NO_BID]), 1, y) == InRound1(Round1Bids())
  {
    var x, y := BidFor(1, 1, 1), BidFor(1, 1, 0);
    Replaced(NO_BID, NO_BID, x);
    Replaced(x, NO_BID, y);
    Replaced<seq<Bid>>([], NOTHING, [x, NO_BID]);
    Replaced<seq<Bid>>([], [x, NO_BID], [x, y]);
  }

  const HELD1: Table := [[1, 1], [1, 0]]

  function Granted(): State {
    State(ClockPhase, 1, false, [PRICES, PRICES], [[], CLOCK], [[], [2, 3]], [[], Round1Bids()], [[]], [[], HELD1],
          [], [], [])
  }

  lemma Ready1()
    ensures CanEvaluate(Unsold(), InRound1(Round1Bids()).(active := false))
  {
  }

  lemma Filled1()
    ensures var s, a := Unsold(), InRound1(Round1Bids()).(active := false);
            CanEvaluate(s, a) && FillMissing(s, a, 7) == a
  {
    var s, a := Unsold(), InRound1(Round1Bids()).(active := false);
    Ready1();
    Complete(1, 1);
    Complete(1, 0);
    hide FilledDemands, CanEvaluate, Pair;
    assert FilledRow(s, Round1Bids(), 7, 1, PRICES) == Round1Bids();
    Replaced<seq<Bid>>([], Round1Bids(), Round1Bids());
  }

  lemma Processed1()
    ensures var s, a := Unsold(), InRound1(Round1Bids()).(active := false);
            CanEvaluate(s, a) && InitialRound(s, a) == Granted()
  {
    var s, a := Unsold(), InRound1(Round1Bids()).(active := false);
    Ready1();
    Vectors();
    Complete(1, 1);
    Complete(1, 0);
    hide TargetRow, Quantities, CanEvaluate, Pair;
    assert Targets(s, a, 1) == [Pair(1, 1), Pair(1, 0)];
    assert QuantityTable([Pair(1, 1), Pair(1, 0)]) == HELD1;
    assert a.licences[..1] == [[]] && a.posted[..1] == [PRICES];
  }

  lemma Sums(table: Table, x0: nat, x1: nat, y0: nat, y1: nat)
    requires table == [[x0, x1], [y0, y1]]
    ensures Rectangular(table, 2, 2) && Column(table, 0) == [x0, y0] && Column(table, 1) == [x1, y1]
    ensures Sum(table[0]) == x0 + x1 && Sum(table[1]) == y0 + y1
    ensures Sum([x0, y0]) == x0 + y0 && Sum([x1, y1]) == x1 + y1
  {
    Sum2(x0, x1);
    Sum2(y0, y1);
    Sum2(x0, y0);
    Sum2(x1, y1);
  }

  /** Round 2 begins: territory 1 has excess demand, territory 2 an unsold licence. */
  function Between(): State {
    State(ClockPhase, 2, false, [PRICES, PRICES], [[], CLOCK, CLOCK], [[], [2, 3], [2, 3]], [[], Round1Bids()],
          [[], [1, -1]], [[], HELD1], [], [], [])
  }

  lemma Concluded1()
    ensures CanConclude(Unsold(), Granted()) && Conclude(Unsold(), Granted()) == (Between(), Success)
  {
    var s := Unsold();
    Vectors();
    ClockPrices();
    Sums(HELD1, 1, 1, 1, 0);
    var excess := ExcessOf(s, HELD1);
    assert excess == [1, -1];
    assert !NoExcess(excess) by { assert excess[0] > 0; }
    assert !FailsFinalStage(s, excess);
    assert NextEligibilities(s, [2, 3], HELD1) == [2, 3];
    hide ExcessOf, NextEligibilities, Raised, FailsFinalStage, NoExcess;
    var a := Conclude(s, Granted()).0;
    assert a.excess == Between().excess && a.eligibility == Between().eligibility && a.clock == Between().clock;
  }

  // ----- round 2 -----

  function InRound2(bids: seq<Bid>): State {
    Between().(active := true, bids := [[], Round1Bids(), bids])
  }

  function Round2Bids(): seq<Bid> {
    [BidFor(2, 1, 1), BidFor(2, 1, 2)]
  }

  lemma RowsIn2(bids: seq<Bid>)
    requires |bids| == 2
    ensures Rows(Unsold(), InRound2(bids), 2)
  {
    Sums(HELD1, 1, 1, 1, 0);
  }

  lemma Round2Opens()
    ensures StartRound(Unsold(), Between()) == InRound2(NOTHING)
  {
    assert seq(Unsold().BidderCount(), _ => NO_BID) == NOTHING;
    assert [[], Round1Bids()] + [NOTHING] == [[], Round1Bids(), NOTHING];
  }

  lemma Checked2(bids: seq<Bid>, limit: nat, q1: nat, q2: nat)
    requires |bids| == 2 && q1 <= 1 && q2 <= 2
    ensures Rows(Unsold(), InRound2(bids), 2)
            && DemandsCheck(Unsold(), InRound2(bids), limit, Pair(q1, q2), 0) == Success
  {
    var s, a, demands := Unsold(), InRound2(bids), Pair(q1, q2);
    RowsIn2(bids);
    Vectors();
    Places();
    PairParts(q1, q2);
    hide Rows, Position;
    assert demands[..0] == [] && Ids(demands[..1]) == [1];
    assert DemandCheck(s, a, limit, demands, 0) == Success;
    assert DemandCheck(s, a, limit, demands, 1) == Success;
    assert DemandsCheck(s, a, limit, demands, 2) == Success;
    assert DemandsCheck(s, a, limit, demands, 1) == Success;
  }

  lemma Accepted2(bids: seq<Bid>)
    requires |bids| == 2
    ensures var s, a := Unsold(), InRound2(bids);
            && Rows(s, a, |a.licences|) && Listed(s)
            && BidCheck(s, a, ALICE, BidFor(2, 1, 1)) == Success && BidCheck(s, a, BOB, BidFor(2, 1, 2)) == Success
  {
    RowsIn2(bids);
    Lookups();
    hide Listed, EligibilityNumber, SubmitterId, Rows;
    Checked2(bids, 2, 1, 1);
    Checked2(bids, 3, 1, 2);
  }

  lemma Replaced3<T>(x: T, y: T, z: T, z': T)
    ensures [x, y, z][2 := z'] == [x, y, z']
  {
  }

  lemma Stored2()
    ensures var s, x, y := Unsold(), BidFor(2, 1, 1), BidFor(2, 1, 2);
            && StoreBid(s, InRound2(NOTHING), 0, x) == InRound2([x, NO_BID])
            && StoreBid(s, InRound2([x, NO_BID]), 1, y) == InRound2(Round2Bids())
  {
    var x, y := BidFor(2, 1, 1), BidFor(2, 1, 2);
    Replaced(NO_BID, NO_BID, x);
    Replaced(x, NO_BID, y);
    Replaced3<seq<Bid>>([], Round1Bids(), NOTHING, [x, NO_BID]);
    Replaced3<seq<Bid>>([], Round1Bids(), [x, NO_BID], [x, y]);
  }

  function Ended2(): State {
    InRound2(Round2Bids()).(active := false)
  }

  lemma Ready2()
    ensures CanEvaluate(Unsold(), Ended2())
  {
    var s := Unsold();
    RowsIn2(Round2Bids());
    Vectors();
    Sums(HELD1, 1, 1, 1, 0);
    assert ExcessOf(s, HELD1) == [1, -1];
  }

  lemma Filled2()
    ensures CanEvaluate(Unsold(), Ended2()) && FillMissing(Unsold(), Ended2(), 7) == Ended2()
  {
    var s, a := Unsold(), Ended2();
    Ready2();
    Complete(1, 1);
    Complete(1, 2);
    hide FilledDemands, CanEvaluate, Pair;
    assert FilledRow(s, Round2Bids(), 7, 2, PRICES) == Round2Bids();
    Replaced3<seq<Bid>>([], Round1Bids(), Round2Bids(), Round2Bids());
  }

  /** What the second evaluation starts from. */
  function Market(): Context {
    Context([1, 2], [2, 3], HELD1, [1, -1], PRICES, CLOCK, [Pair(1, 1), Pair(1, 2)])
  }

  function Board0(): Board {
    Board(HELD1, [1, -1], [0, 2], [11.0, 10.0])
  }

  lemma MarketOpens()
    ensures CanSettle(Unsold(), Ended2())
    ensures ContextOf(Unsold(), Ended2()) == Market() && OpeningBoard(Unsold(), Ended2()) == Board0()
  {
    var s, a := Unsold(), Ended2();
    Ready2();
    Vectors();
    Sums(HELD1, 1, 1, 1, 0);
    hide CanEvaluate, Pair, Sum, Targets;
    TargetsOf2();
    assert EligibilityCaps([2, 3], HELD1) == [0, 2];
    assert PresetPrices(Market()) == [11.0, 10.0];
  }

  lemma TargetsOf2()
    ensures Targets(Unsold(), Ended2(), 2) == [Pair(1, 1), Pair(1, 2)]
  {
    Complete(1, 1);
    Complete(1, 2);
    hide TargetRow, Pair;
  }

  /** Bob's increase in territory 2 is the only change. */
  const INCREASE := QueuedBid(1, 1, Demand(2, 2, 10.0), 0, 0)

  lemma MarketOk()
    ensures ContextOk(Market()) && Shape(Market(), Board0())
  {
    Sums(HELD1, 1, 1, 1, 0);
    hide Sum;
    var c := Market();
    assert |Pair(1, 1)| == 2 && |Pair(1, 2)| == 2;
  }

  lemma QueueLive()
    ensures Live(Market(), Board0(), [INCREASE])
  {
    var c, w, queue := Market(), Board0(), [INCREASE];
    MarketOk();
    assert queue[0] == INCREASE;
    assert c.target[1][1] == INCREASE.demand;
    forall b: nat, t: nat | b < 2 && t < 2 ensures w.held[b][t] != c.target[b][t].quantity <==> Queued(queue, b, t) {
      assert Queued(queue, b, t) <==> b == 1 && t == 1;
    }
  }

  const HELD2: Table := [[1, 1], [1, 2]]

  /** It is applied at once, and excess demand jumps from -1 to 1. */
  function Board1(): Board {
    Board(HELD2, [1, 1], [0, 0], [11.0, 10.0])
  }

  lemma Applied()
    ensures var w := Board0();
            && InRange(w, INCREASE) && Processable(w, INCREASE) && Amount(w, INCREASE) == 2 == Gap(w, INCREASE)
            && Apply(w, INCREASE, CLOCK) == Board1()
  {
    Replaced<nat>(1, 0, 2);
    Replaced<seq<nat>>([1, 1], [1, 0], [1, 2]);
    Replaced<int>(1, -1, 1);
    Replaced<nat>(0, 2, 0);
  }

  lemma SettledBoard()
    ensures Live(Market(), Board0(), [INCREASE]) && Settle(Market(), Board0(), [INCREASE]).board == Board1()
  {
    var c, w, queue := Market(), Board0(), [INCREASE];
    QueueLive();
    Applied();
    assert QueueAfter(w, queue, 0) == [];
    assert FirstProcessable(w, queue) == 0;
    hide ContextOk, QueueInv, Shape, Apply;
    QueueEntry(c, w, queue, 0);
    ApplyKeepsQueueInv(c, w, queue, 0);
    assert FirstProcessable(Board1(), []) == 0;
  }

  function Settled(): State {
    Ended2().(posted := [PRICES, PRICES, [11.0, 10.0]], licences := [[], HELD1, HELD2], excess := [[], [1, -1], [1, 1]])
  }

  lemma Processed2()
    ensures var s, a := Unsold(), Ended2();
            && CanSettle(s, a) && Live(ContextOf(s, a), OpeningBoard(s, a), [INCREASE])
            && RegularRound(s, a, [INCREASE]) == Settled()
  {
    MarketOpens();
    SettledBoard();
    hide Live, Settle, CanSettle, ContextOf, OpeningBoard;
    assert [PRICES, PRICES] + [[11.0, 10.0]] == [PRICES, PRICES, [11.0, 10.0]];
    assert [[], HELD1] + [HELD2] == [[], HELD1, HELD2];
    assert [[], [1, -1]] + [[1, 1]] == [[], [1, -1], [1, 1]];
  }

  lemma RowsSettled()
    ensures CanConclude(Unsold(), Settled())
  {
    Sums(HELD1, 1, 1, 1, 0);
    Sums(HELD2, 1, 1, 1, 2);
  }

  lemma Concluded2()
    ensures CanConclude(Unsold(), Settled())
    ensures var (a, code) := Conclude(Unsold(), Settled());
            && code == Success && a.phase.ClockPhase? && !a.active
            && a.excess == [[], [1, -1], [1, 1]] && a.posted == [PRICES, PRICES, [11.0, 10.0]]
            && |a.clock| == 4 && a.clock[2] == CLOCK
  {
    var s := Unsold();
    RowsSettled();
    Vectors();
    Sums(HELD2, 1, 1, 1, 2);
    var excess := ExcessOf(s, HELD2);
    assert excess == [1, 1];
    assert !NoExcess(excess) by { assert excess[0] > 0; }
    assert !FailsFinalStage(s, excess);
    hide Rows, ExcessOf, Sum;
  }

  // ----- the run -----

  const DRAWS: seq<seq<nat>> := [[0], [0, 0]]

  lemma DrawsFit()
    ensures DrawsFor(Unsold(), DRAWS)
  {
    Vectors();
  }

  lemma StartStep1()
    requires Inv(Unsold(), Initialize(Unsold()))
    ensures Step(Unsold(), OWNER, Initialize(Unsold()), StartNextRound(OWNER), InRound1(NOTHING), Success)
  {
    Round1Opens();
    hide Inv;
  }

  lemma BidStep1()
    requires Inv(Unsold(), InRound1(NOTHING))
    ensures Step(Unsold(), OWNER, InRound1(NOTHING), SubmitClockBid(ALICE, BidFor(1, 1, 1)),
                 InRound1([BidFor(1, 1, 1), NO_BID]), Success)
  {
    Accepted1(NOTHING);
    Lookups();
    Stored1();
    hide Inv, Rows, BidCheck;
  }

  lemma BidStep1b()
    requires Inv(Unsold(), InRound1([BidFor(1, 1, 1), NO_BID]))
    ensures Step(Unsold(), OWNER, InRound1([BidFor(1, 1, 1), NO_BID]), SubmitClockBid(BOB, BidFor(1, 1, 0)),
                 InRound1(Round1Bids()), Success)
  {
    Accepted1([BidFor(1, 1, 1), NO_BID]);
    Lookups();
    Stored1();
    hide Inv, Rows, BidCheck;
  }

  lemma EndStep1()
    requires Inv(Unsold(), InRound1(Round1Bids()))
    ensures Step(Unsold(), OWNER, InRound1(Round1Bids()), EndRound(OWNER, 7, [], DRAWS), Between(), Success)
  {
    DrawsFit();
    Filled1();
    Processed1();
    Concluded1();
    hide Inv, FillMissing, InitialRound, Conclude, CanConclude, CanEvaluate, Processed;
    EndedProcessed(Unsold(), InRound1(Round1Bids()), 7, []);
  }

  lemma StartStep2()
    requires Inv(Unsold(), Between())
    ensures Step(Unsold(), OWNER, Between(), StartNextRound(OWNER), InRound2(NOTHING), Success)
  {
    Round2Opens();
    hide Inv, StartRound;
  }

  lemma BidStep2()
    requires Inv(Unsold(), InRound2(NOTHING))
    ensures Step(Unsold(), OWNER, InRound2(NOTHING), SubmitClockBid(ALICE, BidFor(2, 1, 1)),
                 InRound2([BidFor(2, 1, 1), NO_BID]), Success)
  {
    Accepted2(NOTHING);
    Lookups();
    Stored2();
    hide Inv, Rows, BidCheck;
  }

  lemma BidStep2b()
    requires Inv(Unsold(), InRound2([BidFor(2, 1, 1), NO_BID]))
    ensures Step(Unsold(), OWNER, InRound2([BidFor(2, 1, 1), NO_BID]), SubmitClockBid(BOB, BidFor(2, 1, 2)),
                 InRound2(Round2Bids()), Success)
  {
    Accepted2([BidFor(2, 1, 1), NO_BID]);
    Lookups();
    Stored2();
    hide Inv, Rows, BidCheck;
  }

  function Last(): State {
    Concluded2();
    Conclude(Unsold(), Settled()).0
  }

  lemma EndStep2()
    requires Inv(Unsold(), InRound2(Round2Bids()))
    ensures Step(Unsold(), OWNER, InRound2(Round2Bids()), EndRound(OWNER, 7, [INCREASE], DRAWS), Last(), Success)
  {
    DrawsFit();
    Filled2();
    Processed2();
    Concluded2();
    hide Inv, FillMissing, RegularRound, Conclude, CanConclude, CanEvaluate, CanSettle, Live, Processed;
    EndedProcessed(Unsold(), InRound2(Round2Bids()), 7, [INCREASE]);
  }

  ghost function Requests(): seq<Request> {
    [StartNextRound(OWNER), SubmitClockBid(ALICE, BidFor(1, 1, 1)), SubmitClockBid(BOB, BidFor(1, 1, 0)),
     EndRound(OWNER, 7, [], DRAWS), StartNextRound(OWNER), SubmitClockBid(ALICE, BidFor(2, 1, 1)),
     SubmitClockBid(BOB, BidFor(2, 1, 2)), EndRound(OWNER, 7, [INCREASE], DRAWS)]
  }

  const ACCEPTED: seq<Code> := [Success, Success, Success, Success, Success, Success, Success, Success]

  ghost function Trace(): seq<State> {
    [Initialize(Unsold()), InRound1(NOTHING), InRound1([BidFor(1, 1, 1), NO_BID]), InRound1(Round1Bids()), Between(),
     InRound2(NOTHING), InRound2([BidFor(2, 1, 1), NO_BID]), InRound2(Round2Bids()), Last()]
  }

  lemma IsRun()
    ensures WellFormed(Unsold()) && Run(Unsold(), OWNER, Requests(), ACCEPTED, Trace())
  {
    IsWellFormed();
    hide WellFormed, Inv, Step, Initialize, InRound1, InRound2, Between, Last, BidFor, Round1Bids, Round2Bids;
    var s, requests, trace := Unsold(), Requests(), Trace();
    forall i | 0 <= i < |requests| && AtRest(s, trace[i])
      ensures Step(s, OWNER, trace[i], requests[i], trace[i + 1], ACCEPTED[i])
    {
      if i == 0 {
        StartStep1();
      } else if i == 1 {
        BidStep1();
      } else if i == 2 {
        BidStep1b();
      } else if i == 3 {
        EndStep1();
      } else if i == 4 {
        StartStep2();
      } else if i == 5 {
        BidStep2();
      } else if i == 6 {
        BidStep2b();
      } else {
        EndStep2();
      }
    }
  }

  /**
   * At the end of this run territory 2, which entered round 2 with an unsold licence, has excess demand of one licence
   * at a posted price of 10, below the clock price of 11.
   */
  lemma UnsoldTerritoryMissesClock()
    ensures WellFormed(Unsold()) && Run(Unsold(), OWNER, Requests(), ACCEPTED, Trace())
    ensures var a := Trace()[8];
            && a.excess == [[], [1, -1], [1, 1]] && a.posted == [PRICES, PRICES, [11.0, 10.0]]
            && |a.clock| == 4 && a.clock[2] == [11.0, 11.0]
  {
    hide Run, WellFormed, Conclude;
    IsRun();
    Concluded2();
  }
}
