/** What every run of the clock auction keeps, from creation to the assignment of channels. */
module AuctionRuns {
  import opened Tally
  import opened Basics
  import opened AuctionSetup
  import opened BidLoop
  import opened Bids
  import opened Assignment
  import opened Auction

  function Growth(s: Setup, n: nat): real {
    if n == 0 then 1.0 else Growth(s, n - 1) * Factor(s)
  }

  /** The price of a territory after n raises of the clock. */
  function PriceCeiling(s: Setup, t: nat, n: nat): real
    requires t < s.TerritoryCount()
  {
    s.territories[t].minPrice * Growth(s, n)
  }

  /** What holds when round k opens, in terms of the rows of rounds k - 1 and k. */
  predicate OpenedRow(s: Setup, k: nat, posted0: seq<real>, clock: seq<real>,
                      eligibility0: seq<nat>, eligibility: seq<nat>, held0: Table)
    requires k >= 1
  {
    var B, T := s.BidderCount(), s.TerritoryCount();
    && |posted0| == T && |eligibility| == B
    && clock == Raised(s, posted0)
    && (forall t :: 0 <= t < T ==> 0.0 <= posted0[t] <= PriceCeiling(s, t, if k < 2 then 0 else k - 2))
    && (k == 1 ==> posted0 == s.InitialPrices() && eligibility == s.InitialEligibilities())
    && (k > 1 ==>
          && |eligibility0| == B && Rectangular(held0, B, T)
          && (forall b :: 0 <= b < B ==> Sum(held0[b]) <= eligibility[b] <= eligibility0[b])
          && (forall b :: 0 <= b < B ==>
                ActivityRule(eligibility0[b], Sum(held0[b]), s.activityPercent, eligibility[b]))
          && !FailsFinalStage(s, ExcessOf(s, held0))
          && !NoExcess(ExcessOf(s, held0)))
  }

  /** A demand is met, or stopped by exhausted eligibility, or stopped by the absence of excess demand. */
  predicate Cleared(demanded: nat, held: nat, licencesHeld: nat, eligibility: nat, excess: int) {
    || held == demanded
    || (held < demanded && licencesHeld == eligibility)
    || (held > demanded && excess <= 0)
  }

  predicate Widths(s: Setup, k: nat, posted0: seq<real>, posted: seq<real>, clock: seq<real>,
                   eligibility: seq<nat>, held0: Table, held: Table, bids: seq<Bid>)
  {
    var B, T := s.BidderCount(), s.TerritoryCount();
    && |posted0| == |posted| == |clock| == T && |eligibility| == |bids| == B
    && Rectangular(held, B, T) && (k > 1 ==> Rectangular(held0, B, T))
  }

  /** No bidder holds more than its eligibility, nor more of a territory than there is. */
  predicate Affordable(s: Setup, eligibility: seq<nat>, held: Table)
    requires |eligibility| == s.BidderCount() && Rectangular(held, s.BidderCount(), s.TerritoryCount())
  {
    && (forall b :: 0 <= b < s.BidderCount() ==> Sum(held[b]) <= eligibility[b])
    && (forall b, t :: 0 <= b < s.BidderCount() && 0 <= t < s.TerritoryCount() ==> held[b][t] <= s.Supply()[t])
  }

  /** Posted prices do not fall and stay below the clock price and the compounded increments. */
  predicate PriceStep(s: Setup, k: nat, posted0: seq<real>, posted: seq<real>, clock: seq<real>)
    requires k >= 1 && |posted0| == |posted| == |clock| == s.TerritoryCount()
  {
    && (k == 1 ==> posted == s.InitialPrices())
    && (forall t :: 0 <= t < s.TerritoryCount() ==>
          posted0[t] <= posted[t] <= clock[t] && posted[t] <= PriceCeiling(s, t, k - 1))
  }

  /** One bidder's demand in one territory is granted in round 1, and cleared by the market later. */
  predicate Answered(s: Setup, k: nat, posted0: seq<real>, eligibility: seq<nat>,
                     held0: Table, held: Table, bids: seq<Bid>, b: nat, t: nat)
    requires Widths(s, k, posted0, posted0, posted0, eligibility, held0, held, bids) && k >= 1
    requires b < s.BidderCount() && t < s.TerritoryCount()
  {
    var q := TargetRow(s, bids[b].demands, posted0)[t].quantity;
    if k == 1 then held[b][t] == q
    else
      && Between(held0[b][t], held[b][t], q)
      && Cleared(q, held[b][t], Sum(held[b]), eligibility[b], ExcessOf(s, held)[t])
  }

  predicate DemandsAnswered(s: Setup, k: nat, posted0: seq<real>, eligibility: seq<nat>,
                            held0: Table, held: Table, bids: seq<Bid>)
    requires Widths(s, k, posted0, posted0, posted0, eligibility, held0, held, bids) && k >= 1
  {
    forall b: nat, t: nat :: b < s.BidderCount() && t < s.TerritoryCount() ==>
      Answered(s, k, posted0, eligibility, held0, held, bids, b, t)
  }

  /** Excess demand has a floor, and where it stays positive the posted price is the clock price. */
  predicate MarketStep(s: Setup, posted: seq<real>, clock: seq<real>, held0: Table, held: Table)
    requires |posted| == |clock| == s.TerritoryCount()
    requires Rectangular(held0, s.BidderCount(), s.TerritoryCount())
    requires Rectangular(held, s.BidderCount(), s.TerritoryCount())
  {
    var e0, e := ExcessOf(s, held0), ExcessOf(s, held);
    forall t :: 0 <= t < s.TerritoryCount() ==>
      && e[t] >= Min(0, e0[t])
      && (e0[t] >= 0 && e[t] > 0 ==> posted[t] == clock[t])
  }

  /** What holds once round k has been evaluated. */
  predicate EvaluatedRow(s: Setup, k: nat, posted0: seq<real>, posted: seq<real>, clock: seq<real>,
                         eligibility: seq<nat>, held0: Table, held: Table, bids: seq<Bid>)
    requires k >= 1
  {
    && Widths(s, k, posted0, posted, clock, eligibility, held0, held, bids)
    && Affordable(s, eligibility, held)
    && PriceStep(s, k, posted0, posted, clock)
    && DemandsAnswered(s, k, posted0, eligibility, held0, held, bids)
    && (k > 1 ==> MarketStep(s, posted, clock, held0, held))
  }

  predicate Opened(s: Setup, a: State, k: nat)
    requires Rows(s, a, |a.licences|) && 1 <= k <= a.round
  {
    OpenedRow(s, k, a.posted[k - 1], a.clock[k], a.eligibility[k - 1], a.eligibility[k], a.licences[k - 1])
  }

  predicate Evaluated(s: Setup, a: State, k: nat)
    requires Rows(s, a, |a.licences|) && 1 <= k < |a.licences|
  {
    EvaluatedRow(s, k, a.posted[k - 1], a.posted[k], a.clock[k], a.eligibility[k],
                 a.licences[k - 1], a.licences[k], a.bids[k])
  }

  /** The rows of all rounds so far, and the excess demand they imply. */
  predicate History(s: Setup, a: State) {
    && Rows(s, a, |a.licences|)
    && Conservation(s, a)
    && (forall k :: 1 <= k <= a.round ==> Opened(s, a, k))
    && (forall k :: 1 <= k < |a.licences| ==> Evaluated(s, a, k))
  }

  predicate StoredBids(s: Setup, a: State)
    requires Rows(s, a, |a.licences|) && a.round + 1 == |a.bids|
  {
    forall b :: 0 <= b < s.BidderCount() ==> BidFits(s, a, b, a.bids[a.round][b].demands)
  }

  /** Every bidder owns exactly its licences in every territory, channel prices are set, and assignment is free. */
  predicate Assigned(s: Setup, a: State)
    requires Rows(s, a, a.round + 1)
  {
    && |a.winAssign| == |a.channelPrice| == |a.assignCost| == s.TerritoryCount()
    && forall t :: 0 <= t < s.TerritoryCount() ==>
         && |a.winAssign[t]| == s.Supply()[t]
         && Fair(a.winAssign[t], Column(a.licences[a.round], t))
         && a.channelPrice[t] == PricesOf(s, a, t)
         && |a.assignCost[t]| == s.BidderCount()
         && forall b :: 0 <= b < s.BidderCount() ==> a.assignCost[t][b] == 0.0
  }

  predicate Inv(s: Setup, a: State) {
    && WellFormed(s)
    && History(s, a)
    && |a.excess| == |a.licences|
    && match a.phase
       case ClockPhase =>
         && |a.licences| == a.round
         && |a.bids| == a.round + (if a.active then 1 else 0)
         && (a.active ==> StoredBids(s, a))
       case FsrFailed =>
         && |a.licences| == a.round + 1
         && a.round == 1 && !a.active
         && FailsFinalStage(s, a.excess[1])
       case AssignmentPhase =>
         && |a.licences| == a.round + 1
         && NoExcess(a.excess[a.round]) && !FailsFinalStage(s, a.excess[a.round])
       case Closed =>
         && |a.licences| == a.round + 1
         && NoExcess(a.excess[a.round]) && !FailsFinalStage(s, a.excess[a.round])
         && !a.active && Assigned(s, a)
  }

  // ----- creation, start, submission -----

  lemma InitializeInv(s: Setup)
    requires WellFormed(s)
    ensures Inv(s, Initialize(s))
  {
  }

  /** Bids of the current round and the active flag do not touch the history. */
  lemma BidsFrame(s: Setup, a: State, bids: seq<seq<Bid>>, active: bool)
    requires History(s, a)
    requires |a.licences| <= |bids| <= a.round + 1
    requires forall k :: 1 <= k < |a.licences| ==> bids[k] == a.bids[k]
    requires forall k :: 1 <= k < |bids| ==> |bids[k]| == s.BidderCount()
    ensures History(s, a.(bids := bids, active := active))
  {
    var a' := a.(bids := bids, active := active);
    forall k | 1 <= k < |a.licences| ensures Evaluated(s, a', k) {
      assert Evaluated(s, a, k);
    }
    forall k | 1 <= k <= a.round ensures Opened(s, a', k) {
      assert Opened(s, a, k);
    }
  }

  lemma StartRoundInv(s: Setup, a: State)
    requires Inv(s, a) && !a.active && (a.phase.ClockPhase? || a.phase.AssignmentPhase?)
    ensures Inv(s, StartRound(s, a))
  {
    BidsFrame(s, a, StartRound(s, a).bids, true);
    if a.phase.ClockPhase? {
      assert Quantities([]) == [];
    }
  }

  lemma StoreBidInv(s: Setup, a: State, p: Principal, bid: Bid)
    requires Inv(s, a) && a.phase.ClockPhase?
    requires BidCheck(s, a, p, bid) == Success
    ensures a.active
    ensures SubmitterIndex(s, p).Some? && SubmitterIndex(s, p).value < s.BidderCount()
    ensures Inv(s, StoreBid(s, a, SubmitterIndex(s, p).value, bid))
  {
    assert a.eligibility[1] == s.InitialEligibilities() by {
      assert Opened(s, a, 1);
    }
    hide OpenedRow, EvaluatedRow, DemandsFit, Conservation;
    BidCheckFits(s, a, p, bid);
    var b := SubmitterIndex(s, p).value;
    var a' := StoreBid(s, a, b, bid);
    BidsFrame(s, a, a'.bids, a.active);
    forall i | 0 <= i < s.BidderCount() ensures BidFits(s, a', i, a'.bids[a'.round][i].demands) {
      assert BidFits(s, a, i, a.bids[a.round][i].demands);
    }
  }

  // ----- filling in bids -----

  /** An active clock round whose bids are about to be evaluated. */
  predicate Evaluable(s: Setup, a: State) {
    && WellFormed(s) && History(s, a) && CanEvaluate(s, a)
    && a.phase.ClockPhase?
    && StoredBids(s, a)
  }

  lemma PriceRises(s: Setup, p: real)
    requires p >= 0.0
    ensures p <= p * Factor(s)
  {
    assert p * Factor(s) == p + p * (s.incrementPercent as real / 100.0);
  }

  lemma ClockAbovePosted(s: Setup, a: State, k: nat)
    requires Rows(s, a, |a.licences|) && 1 <= k <= a.round && Opened(s, a, k)
    ensures forall t :: 0 <= t < s.TerritoryCount() ==> a.posted[k - 1][t] <= a.clock[k][t]
  {
    forall t | 0 <= t < s.TerritoryCount() ensures a.posted[k - 1][t] <= a.clock[k][t] {
      PriceRises(s, a.posted[k - 1][t]);
    }
  }

  lemma TargetQuantities(s: Setup, demands: seq<Demand>, fallback: seq<real>)
    requires |fallback| == s.TerritoryCount()
    ensures Quantities(TargetRow(s, demands, fallback)) == QuantityRow(s, demands)
  {
    forall t | 0 <= t < s.TerritoryCount()
      ensures TargetRow(s, demands, fallback)[t].quantity == QuantityRow(s, demands)[t]
    {
      var id := s.TerritoryIds()[t];
      assert TargetOf(demands, id, fallback[t]).quantity == TargetOf(demands, id, 0.0).quantity;
    }
  }

  lemma FilledFits(s: Setup, round: nat, eligibility: nat, posted0: seq<real>, clock: seq<real>, demands: seq<Demand>)
    requires WellFormed(s) && DemandsFit(s, round, eligibility, posted0, clock, demands)
    requires forall t :: 0 <= t < s.TerritoryCount() ==> posted0[t] <= clock[t]
    ensures DemandsFit(s, round, eligibility, posted0, clock, FilledDemands(s, demands, posted0))
  {
    var filled := FilledDemands(s, demands, posted0);
    FilledTargets(s, demands, posted0);
    TargetQuantities(s, demands, posted0);
    TargetQuantities(s, filled, posted0);
    DemandTotals(s, demands);
    DemandTotals(s, filled);
  }

  lemma FilledBidFits(s: Setup, a: State, auctionId: nat, b: nat)
    requires Evaluable(s, a) && b < s.BidderCount()
    ensures var a' := FillMissing(s, a, auctionId);
            BidFits(s, a', b, a'.bids[a'.round][b].demands)
  {
    hide OpenedRow, EvaluatedRow, DemandsFit, Conservation, FilledDemands;
    assert Opened(s, a, a.round);
    ClockAbovePosted(s, a, a.round);
    assert BidFits(s, a, b, a.bids[a.round][b].demands);
    FilledFits(s, a.round, a.eligibility[1][b], a.posted[a.round - 1], a.clock[a.round], a.bids[a.round][b].demands);
  }

  /** Filling in missing bids leaves the round ready for evaluation. */
  lemma FillMissingInv(s: Setup, a: State, auctionId: nat)
    requires Evaluable(s, a)
    ensures Evaluable(s, FillMissing(s, a, auctionId))
  {
    var a' := FillMissing(s, a, auctionId);
    BidsFrame(s, a, a'.bids, a.active);
    forall b | 0 <= b < s.BidderCount() ensures BidFits(s, a', b, a'.bids[a'.round][b].demands) {
      FilledBidFits(s, a, auctionId, b);
    }
  }

  // ----- evaluating one round -----

  lemma TargetFits(s: Setup, round: nat, eligibility: nat, posted0: seq<real>, clock: seq<real>,
                   demands: seq<Demand>, t: nat)
    requires WellFormed(s) && DemandsFit(s, round, eligibility, posted0, clock, demands)
    requires t < s.TerritoryCount() && posted0[t] <= clock[t]
    ensures var d := TargetRow(s, demands, posted0)[t];
            && d.quantity <= s.Supply()[t]
            && (round > 1 ==> posted0[t] <= d.price <= clock[t])
  {
    PositionOfDistinct(s.TerritoryIds(), t);
  }

  lemma InitialRoundEvaluated(s: Setup, a: State)
    requires Evaluable(s, a) && a.round == 1
    ensures var a' := InitialRound(s, a);
            Rows(s, a', 2) && Evaluated(s, a', 1)
  {
    var a' := InitialRound(s, a);
    assert Opened(s, a, 1);
    ClockAbovePosted(s, a, 1);
    forall b: nat | b < s.BidderCount()
      ensures Sum(a'.licences[1][b]) <= a.eligibility[1][b]
      ensures forall t :: 0 <= t < s.TerritoryCount() ==>
                a'.licences[1][b][t] == TargetRow(s, a.bids[1][b].demands, a.posted[0])[t].quantity <= s.Supply()[t]
    {
      var demands := a.bids[1][b].demands;
      assert BidFits(s, a, b, demands);
      TargetQuantities(s, demands, a.posted[0]);
      DemandTotals(s, demands);
      forall t | 0 <= t < s.TerritoryCount()
        ensures TargetRow(s, demands, a.posted[0])[t].quantity <= s.Supply()[t]
      {
        TargetFits(s, 1, a.eligibility[1][b], a.posted[0], a.clock[1], demands, t);
      }
    }
  }

  lemma ContextTarget(s: Setup, a: State, b: nat, t: nat)
    requires Evaluable(s, a) && a.round > 1 && b < s.BidderCount() && t < s.TerritoryCount()
    ensures var c := ContextOf(s, a);
            && c.posted0[t] <= c.clock[t]
            && c.target[b][t].quantity <= c.supply[t]
            && c.posted0[t] <= c.target[b][t].price <= c.clock[t]
  {
    hide OpenedRow, EvaluatedRow, DemandsFit, TargetRow, Conservation;
    assert Opened(s, a, a.round);
    ClockAbovePosted(s, a, a.round);
    assert BidFits(s, a, b, a.bids[a.round][b].demands);
    TargetFits(s, a.round, a.eligibility[1][b], a.posted[a.round - 1], a.clock[a.round], a.bids[a.round][b].demands, t);
  }

  lemma HeldWithinSupply(s: Setup, a: State, k: nat, b: nat, t: nat)
    requires History(s, a) && 1 <= k < |a.licences| && b < s.BidderCount() && t < s.TerritoryCount()
    ensures a.licences[k][b][t] <= s.Supply()[t]
  {
    hide OpenedRow, DemandsAnswered, MarketStep, PriceStep, Conservation;
    assert Evaluated(s, a, k);
  }

  lemma ContextFits(s: Setup, a: State)
    requires Evaluable(s, a) && a.round > 1
    ensures ContextOk(ContextOf(s, a))
  {
    hide OpenedRow, EvaluatedRow, DemandsFit, TargetRow;
    var c := ContextOf(s, a);
    forall b, t | 0 <= b < s.BidderCount() && 0 <= t < s.TerritoryCount()
      ensures c.posted0[t] <= c.clock[t]
      ensures c.held0[b][t] <= c.supply[t] && c.target[b][t].quantity <= c.supply[t]
      ensures c.posted0[t] <= c.target[b][t].price <= c.clock[t]
    {
      ContextTarget(s, a, b, t);
      HeldWithinSupply(s, a, a.round - 1, b, t);
    }
    assert Opened(s, a, a.round);
    ClockAbovePosted(s, a, a.round);
  }

  /** A later round opens with its ledgers balanced: no eligibility cap underflows. */
  lemma ContextReady(s: Setup, a: State)
    requires Evaluable(s, a) && a.round > 1
    ensures CanSettle(s, a)
    ensures ContextOf(s, a).excess0 == ExcessOf(s, ContextOf(s, a).held0)
    ensures RoundInv(ContextOf(s, a), OpeningBoard(s, a))
  {
    ContextFits(s, a);
    assert Opened(s, a, a.round);
    hide EvaluatedRow, DemandsFit, TargetRow, StoredBids, PriceCeiling, FailsFinalStage;
  }

  lemma CeilingRises(s: Setup, t: nat, k: nat, posted0: real, posted: real)
    requires t < s.TerritoryCount() && k >= 2
    requires posted0 <= PriceCeiling(s, t, k - 2) && posted <= posted0 * Factor(s)
    ensures posted <= PriceCeiling(s, t, k - 1)
  {
    var m, g, f := s.territories[t].minPrice, Growth(s, k - 2), Factor(s);
    assert f >= 1.0;
    assert posted0 * f <= (m * g) * f == m * (g * f);
  }

  /** A board that settles a round, read as rows of the auction. */
  predicate SettlesRound(s: Setup, c: Context, f: Board) {
    && RoundInv(c, f)
    && c.supply == s.Supply() && |c.eligibility| == s.BidderCount()
    && f.excess == ExcessOf(s, f.held) && c.excess0 == ExcessOf(s, c.held0)
  }

  lemma SettledAffordable(s: Setup, c: Context, f: Board)
    requires SettlesRound(s, c, f)
    ensures Affordable(s, c.eligibility, f.held)
  {
    forall b, t | 0 <= b < s.BidderCount() && 0 <= t < s.TerritoryCount() ensures f.held[b][t] <= s.Supply()[t] {
      assert Between(c.held0[b][t], f.held[b][t], c.target[b][t].quantity);
    }
  }

  lemma SettledPrices(s: Setup, c: Context, f: Board, k: nat)
    requires SettlesRound(s, c, f) && k >= 2
    requires c.clock == Raised(s, c.posted0)
    requires forall t :: 0 <= t < s.TerritoryCount() ==> c.posted0[t] <= PriceCeiling(s, t, k - 2)
    ensures PriceStep(s, k, c.posted0, f.posted, c.clock)
  {
    forall t | 0 <= t < s.TerritoryCount() ensures f.posted[t] <= PriceCeiling(s, t, k - 1) {
      CeilingRises(s, t, k, c.posted0[t], f.posted[t]);
    }
  }

  lemma SettledMarket(s: Setup, c: Context, f: Board)
    requires SettlesRound(s, c, f)
    ensures MarketStep(s, f.posted, c.clock, c.held0, f.held)
  {
  }

  lemma SettledAnswer(s: Setup, c: Context, w: Board, queue: seq<QueuedBid>, b: nat, t: nat)
    requires Live(c, w, queue) && RoundInv(c, w)
    requires SettlesRound(s, c, Settle(c, w, queue).board)
    requires b < s.BidderCount() && t < s.TerritoryCount()
    ensures var f := Settle(c, w, queue).board;
            && Between(c.held0[b][t], f.held[b][t], c.target[b][t].quantity)
            && Cleared(c.target[b][t].quantity, f.held[b][t], Sum(f.held[b]), c.eligibility[b], ExcessOf(s, f.held)[t])
  {
    SettledDemands(c, w, queue, b, t);
    hide Live, Settle, Conserved, Priced, Floored, ExcessOf;
  }

  lemma SettledAnswers(s: Setup, a: State, queue: seq<QueuedBid>, f: Board)
    requires CanSettle(s, a)
    requires Live(ContextOf(s, a), OpeningBoard(s, a), queue) && RoundInv(ContextOf(s, a), OpeningBoard(s, a))
    requires f == Settle(ContextOf(s, a), OpeningBoard(s, a), queue).board
    requires SettlesRound(s, ContextOf(s, a), f)
    ensures DemandsAnswered(s, a.round, a.posted[a.round - 1], a.eligibility[a.round],
                            a.licences[a.round - 1], f.held, a.bids[a.round])
  {
    hide Live, Settle, OpeningBoard, Conserved, Priced, Floored, Directed, Budgeted;
    var r, posted0, held0 := a.round, a.posted[a.round - 1], a.licences[a.round - 1];
    forall b: nat, t: nat | b < s.BidderCount() && t < s.TerritoryCount()
      ensures Answered(s, r, posted0, a.eligibility[r], held0, f.held, a.bids[r], b, t)
    {
      var c := ContextOf(s, a);
      SettledAnswer(s, c, OpeningBoard(s, a), queue, b, t);
      assert c.target[b] == TargetRow(s, a.bids[r][b].demands, posted0);
    }
  }

  lemma ConservedExcess(s: Setup, c: Context, w: Board)
    requires ContextOk(c) && Shape(c, w) && Conserved(c, w)
    requires c.supply == s.Supply() && |c.eligibility| == s.BidderCount()
    ensures w.excess == ExcessOf(s, w.held)
  {
  }

  lemma RoundSettles(s: Setup, a: State, queue: seq<QueuedBid>)
    requires Evaluable(s, a) && a.round > 1 && CanSettle(s, a)
    requires Live(ContextOf(s, a), OpeningBoard(s, a), queue)
    ensures RoundInv(ContextOf(s, a), OpeningBoard(s, a))
    ensures SettlesRound(s, ContextOf(s, a), Settle(ContextOf(s, a), OpeningBoard(s, a), queue).board)
  {
    hide Opened, Evaluated, StoredBids, Settle, Live, OpeningBoard, Conserved, Priced, Floored, Directed, Budgeted;
    hide Targets, Conservation, ExcessOf;
    ContextReady(s, a);
    var c := ContextOf(s, a);
    SettleOutcome(c, OpeningBoard(s, a), queue);
    ConservedExcess(s, c, Settle(c, OpeningBoard(s, a), queue).board);
  }

  /** The settled rows of a later round satisfy everything that is promised of an evaluated round. */
  lemma SettledRow(s: Setup, a: State, queue: seq<QueuedBid>, f: Board)
    requires Evaluable(s, a) && a.round > 1 && CanSettle(s, a)
    requires Live(ContextOf(s, a), OpeningBoard(s, a), queue)
    requires f == Settle(ContextOf(s, a), OpeningBoard(s, a), queue).board
    ensures EvaluatedRow(s, a.round, a.posted[a.round - 1], f.posted, a.clock[a.round], a.eligibility[a.round],
                         a.licences[a.round - 1], f.held, a.bids[a.round])
    ensures f.excess == ExcessOf(s, f.held)
  {
    hide Live, Settle, OpeningBoard, Affordable, PriceStep, DemandsAnswered, MarketStep, Conservation, StoredBids;
    hide ContextOk, Conserved, Budgeted, Floored, Priced, Directed;
    var c := ContextOf(s, a);
    RoundSettles(s, a, queue);
    SettledAffordable(s, c, f);
    SettledMarket(s, c, f);
    SettledAnswers(s, a, queue, f);
    assert Opened(s, a, a.round);
    SettledPrices(s, c, f, a.round);
  }

  // ----- from evaluated bids to the next phase -----

  /** The current round has its licence and price rows, and waits to be concluded. */
  predicate Processed(s: Setup, a: State) {
    && WellFormed(s) && History(s, a)
    && a.phase.ClockPhase? && !a.active
    && |a.licences| == a.round + 1
    && |a.excess| >= a.round
  }

  lemma InitialProcessed(s: Setup, a: State)
    requires Evaluable(s, a) && a.round == 1 && !a.active
    ensures Processed(s, InitialRound(s, a))
  {
    InitialRoundEvaluated(s, a);
    assert Opened(s, a, 1);
    hide OpenedRow, EvaluatedRow, DemandsFit, Targets;
    var a' := InitialRound(s, a);
    assert Opened(s, a', 1);
  }

  lemma RoundAppended(s: Setup, a: State, posted: seq<real>, held: Table)
    requires History(s, a) && CanEvaluate(s, a) && a.round > 1
    requires EvaluatedRow(s, a.round, a.posted[a.round - 1], posted, a.clock[a.round], a.eligibility[a.round],
                          a.licences[a.round - 1], held, a.bids[a.round])
    ensures History(s, a.(posted := a.posted + [posted], licences := a.licences + [held],
                          excess := a.excess + [ExcessOf(s, held)]))
  {
    var a' := a.(posted := a.posted + [posted], licences := a.licences + [held],
                 excess := a.excess + [ExcessOf(s, held)]);
    assert Widths(s, a.round, a.posted[a.round - 1], posted, a.clock[a.round], a.eligibility[a.round],
                  a.licences[a.round - 1], held, a.bids[a.round]);
    hide OpenedRow, EvaluatedRow, ExcessOf;
    forall k | 1 <= k < |a'.licences| ensures Evaluated(s, a', k) {
      assert k < a.round ==> Evaluated(s, a, k);
    }
    forall k | 1 <= k <= a'.round ensures Opened(s, a', k) {
      assert Opened(s, a, k);
    }
  }

  lemma RegularProcessed(s: Setup, a: State, queue: seq<QueuedBid>)
    requires Evaluable(s, a) && a.round > 1 && !a.active && CanSettle(s, a)
    requires Live(ContextOf(s, a), OpeningBoard(s, a), queue)
    ensures Processed(s, RegularRound(s, a, queue))
  {
    hide Opened, Evaluated, EvaluatedRow, StoredBids, Live, Settle, ContextOf, OpeningBoard, ExcessOf;
    var f := Settle(ContextOf(s, a), OpeningBoard(s, a), queue).board;
    SettledRow(s, a, queue, f);
    RoundAppended(s, a, f.posted, f.held);
  }

  /** Excess demand of a high-demand territory cannot become negative after round 1. */
  lemma FinalStageRuleHolds(s: Setup, a: State)
    requires Processed(s, a) && a.round > 1
    ensures !FailsFinalStage(s, ExcessOf(s, a.licences[a.round]))
  {
    assert Opened(s, a, a.round);
    assert Evaluated(s, a, a.round);
    var e0, e := ExcessOf(s, a.licences[a.round - 1]), ExcessOf(s, a.licences[a.round]);
    hide DemandsAnswered, PriceStep, Affordable, Conservation, ExcessOf;
    forall t | 0 <= t < s.TerritoryCount() && s.territories[t].highDemand ensures e[t] >= 0 {
      assert e0[t] >= 0;
    }
  }

  lemma NextRoundOpens(s: Setup, a: State)
    requires Processed(s, a)
    requires var e := ExcessOf(s, a.licences[a.round]); !FailsFinalStage(s, e) && !NoExcess(e)
    ensures OpenedRow(s, a.round + 1, a.posted[a.round], Raised(s, a.posted[a.round]), a.eligibility[a.round],
                      NextEligibilities(s, a.eligibility[a.round], a.licences[a.round]), a.licences[a.round])
  {
    assert Opened(s, a, a.round);
    assert Evaluated(s, a, a.round);
    hide DemandsAnswered, MarketStep, Conservation, ExcessOf, PriceCeiling;
  }

  lemma ExcessRecorded(s: Setup, a: State)
    requires Processed(s, a)
    ensures Conservation(s, a.(excess := if |a.excess| == a.round
                                 then a.excess + [ExcessOf(s, a.licences[a.round])] else a.excess))
    ensures |a.excess| > a.round ==> a.excess[a.round] == ExcessOf(s, a.licences[a.round])
  {
    hide Opened, Evaluated;
  }

  lemma HistoryFrame(s: Setup, a: State, phase: Phase, excess: seq<seq<int>>)
    requires History(s, a)
    requires Conservation(s, a.(excess := excess))
    ensures History(s, a.(phase := phase, excess := excess))
  {
    var a' := a.(phase := phase, excess := excess);
    hide OpenedRow, EvaluatedRow, ExcessOf;
    forall k | 1 <= k < |a.licences| ensures Evaluated(s, a', k) {
      assert Evaluated(s, a, k);
    }
    forall k | 1 <= k <= a.round ensures Opened(s, a', k) {
      assert Opened(s, a, k);
    }
  }

  lemma NextRoundHistory(s: Setup, a: State, eligibility: seq<nat>, clock: seq<real>)
    requires History(s, a) && |a.licences| == a.round + 1
    requires |eligibility| == s.BidderCount() && |clock| == s.TerritoryCount()
    requires OpenedRow(s, a.round + 1, a.posted[a.round], clock, a.eligibility[a.round], eligibility,
                       a.licences[a.round])
    ensures History(s, a.(eligibility := a.eligibility + [eligibility], clock := a.clock + [clock],
                          round := a.round + 1))
  {
    var a' := a.(eligibility := a.eligibility + [eligibility], clock := a.clock + [clock], round := a.round + 1);
    hide OpenedRow, EvaluatedRow, ExcessOf;
    forall k | 1 <= k < |a.licences| ensures Evaluated(s, a', k) {
      assert Evaluated(s, a, k);
    }
    forall k | 1 <= k <= a'.round ensures Opened(s, a', k) {
      assert k <= a.round ==> Opened(s, a, k);
    }
  }

  /** Concluding a round never reports an evaluation error and leads to a state that keeps the invariant. */
  lemma ConcludeInv(s: Setup, a: State)
    requires Processed(s, a)
    ensures CanConclude(s, a)
    ensures Conclude(s, a).1 == Success
    ensures Inv(s, Conclude(s, a).0) && !Conclude(s, a).0.phase.Closed?
    ensures !Conclude(s, a).0.active
    ensures Conclude(s, a).0.phase.FsrFailed? ==> a.round == 1
  {
    var e := ExcessOf(s, a.licences[a.round]);
    ExcessRecorded(s, a);
    if a.round > 1 {
      FinalStageRuleHolds(s, a);
    }
    var excess := if |a.excess| == a.round then a.excess + [e] else a.excess;
    var a1 := a.(excess := excess);
    hide Opened, Evaluated, Conservation;
    if FailsFinalStage(s, e) {
      HistoryFrame(s, a, FsrFailed, excess);
    } else if NoExcess(e) {
      HistoryFrame(s, a, AssignmentPhase, excess);
    } else {
      NextRoundOpens(s, a);
      HistoryFrame(s, a, ClockPhase, excess);
      assert a1 == a.(phase := ClockPhase, excess := excess);
      hide OpenedRow;
      NextRoundHistory(s, a1, NextEligibilities(s, a.eligibility[a.round], a.licences[a.round]),
                       Raised(s, a.posted[a.round]));
    }
  }

  /** The random assignment closes the auction with every licence honoured, whatever is drawn. */
  lemma AssignmentRoundInv(s: Setup, a: State, draws: seq<seq<nat>>)
    requires Inv(s, a) && a.phase.AssignmentPhase? && !a.active && DrawsFor(s, draws)
    ensures CanAssign(s, a)
    ensures Inv(s, AssignmentRound(s, a, draws))
  {
    var a' := AssignmentRound(s, a, draws);
    hide OpenedRow, EvaluatedRow, Fair;
    assert Conservation(s, a');
    forall k | 1 <= k < |a.licences| ensures Evaluated(s, a', k) {
      assert Evaluated(s, a, k);
    }
    forall k | 1 <= k <= a.round ensures Opened(s, a', k) {
      assert Opened(s, a, k);
    }
    forall t | 0 <= t < s.TerritoryCount() ensures PricesOf(s, a', t) == PricesOf(s, a, t) {
    }
  }

  // ----- requests -----

  lemma ActiveIsEvaluable(s: Setup, a: State, auctionId: nat)
    requires Inv(s, a) && a.phase.ClockPhase? && a.active
    ensures Evaluable(s, a.(active := false))
    ensures Evaluable(s, FillMissing(s, a.(active := false), auctionId))
  {
    var a0 := a.(active := false);
    BidsFrame(s, a, a.bids, false);
    assert a0 == a.(bids := a.bids, active := false);
    hide Opened, Evaluated, DemandsFit;
    forall b | 0 <= b < s.BidderCount() ensures BidFits(s, a0, b, a0.bids[a0.round][b].demands) {
      assert BidFits(s, a, b, a.bids[a.round][b].demands);
    }
    FillMissingInv(s, a0, auctionId);
  }

  /** The bids of an active round once it is ended and missing bids are filled in. */
  function Submitted(s: Setup, a: State, auctionId: nat): State
    requires Inv(s, a) && a.phase.ClockPhase? && a.active
  {
    FillMissing(s, a.(active := false), auctionId)
  }

  /** Conclude a processed round; a finished clock phase goes straight on to the assignment of channels. */
  function Finish(s: Setup, p: State, draws: seq<seq<nat>>): (State, Code)
    requires Processed(s, p) && DrawsFor(s, draws)
  {
    hide History, Assigned, WellFormed;
    ConcludeInv(s, p);
    var (c, code) := Conclude(s, p);
    if code == Success && c.phase.AssignmentPhase? then (AssignmentRound(s, c, draws), Success) else (c, code)
  }

  /** Evaluate the active round. */
  ghost function Ended(s: Setup, a: State, auctionId: nat, queue: seq<QueuedBid>, draws: seq<seq<nat>>): (State, Code)
    requires Inv(s, a) && a.phase.ClockPhase? && a.active
    requires QueueReady(s, Submitted(s, a, auctionId), queue) && DrawsFor(s, draws)
  {
    EndedProcessed(s, a, auctionId, queue);
    Finish(s, Process(s, Submitted(s, a, auctionId), queue), draws)
  }

  lemma EndedProcessed(s: Setup, a: State, auctionId: nat, queue: seq<QueuedBid>)
    requires Inv(s, a) && a.phase.ClockPhase? && a.active
    requires QueueReady(s, Submitted(s, a, auctionId), queue)
    ensures CanEvaluate(s, Submitted(s, a, auctionId))
    ensures Processed(s, Process(s, Submitted(s, a, auctionId), queue))
    ensures Process(s, Submitted(s, a, auctionId), queue).round == a.round
  {
    ActiveIsEvaluable(s, a, auctionId);
    var f := Submitted(s, a, auctionId);
    hide FilledRow, History, StoredBids, ContextOf, OpeningBoard, Live, Settle;
    if a.round == 1 {
      InitialProcessed(s, f);
    } else {
      RegularProcessed(s, f, queue);
    }
  }

  lemma FinishInv(s: Setup, p: State, draws: seq<seq<nat>>)
    requires Processed(s, p) && DrawsFor(s, draws)
    ensures var (a', code) := Finish(s, p, draws);
            && code == Success && Inv(s, a') && !a'.phase.AssignmentPhase?
            && (a'.phase.FsrFailed? ==> p.round == 1)
  {
    ConcludeInv(s, p);
    hide History, Assigned, Processed, WellFormed;
    var c := Conclude(s, p).0;
    if c.phase.AssignmentPhase? {
      AssignmentRoundInv(s, c, draws);
    }
  }

  /** Ending a round succeeds, keeps the invariant, and fails the final stage rule in round 1 only. */
  lemma EndedInv(s: Setup, a: State, auctionId: nat, queue: seq<QueuedBid>, draws: seq<seq<nat>>)
    requires Inv(s, a) && a.phase.ClockPhase? && a.active
    requires QueueReady(s, Submitted(s, a, auctionId), queue) && DrawsFor(s, draws)
    ensures var (a', code) := Ended(s, a, auctionId, queue, draws);
            && code == Success && Inv(s, a') && !a'.phase.AssignmentPhase?
            && (a'.phase.FsrFailed? ==> a.round == 1)
  {
    EndedProcessed(s, a, auctionId, queue);
    FinishInv(s, Process(s, Submitted(s, a, auctionId), queue), draws);
  }

  datatype Request =
    | StartNextRound(who: Principal)
    | SubmitClockBid(who: Principal, bid: Bid)
    | EndRound(who: Principal, auctionId: nat, queue: seq<QueuedBid>, draws: seq<seq<nat>>)

  /** One request to the auction; a refused request leaves the state as it was. */
  ghost predicate Step(s: Setup, owner: Principal, a: State, r: Request, a': State, code: Code)
    requires Inv(s, a)
  {
    match r
    case StartNextRound(who) =>
      if a.active then a' == a && code == RoundIsActive
      else if !a.phase.ClockPhase? && !a.phase.AssignmentPhase? then a' == a && code == RestrictedAuctionState
      else if who != owner then a' == a && code == UnrecognizedSubmitter
      else a' == StartRound(s, a) && code == Success
    case SubmitClockBid(who, bid) =>
      if !a.phase.ClockPhase? then a' == a && code == NotInClockPhase
      else if SubmitterId(s.bidders, who) == 0 then a' == a && code == UnrecognizedSubmitter
      else
        && code == BidCheck(s, a, who, bid)
        && (code != Success ==> a' == a)
        && (code == Success ==>
              var b := SubmitterIndex(s, who);
              b.Some? && a.round < |a.bids| && (b.value < |a.bids[a.round]|) && a' == StoreBid(s, a, b.value, bid))
    case EndRound(who, auctionId, queue, draws) =>
      if !a.active then a' == a && code == RoundNotActive
      else if !a.phase.ClockPhase? then a' == a && code == RestrictedAuctionState
      else if who != owner then a' == a && code == UnrecognizedSubmitter
      else
        && QueueReady(s, Submitted(s, a, auctionId), queue) && DrawsFor(s, draws)
        && (a', code) == Ended(s, a, auctionId, queue, draws)
  }

  /** Between requests the auction is never in the assignment phase. */
  predicate AtRest(s: Setup, a: State) {
    Inv(s, a) && !a.phase.AssignmentPhase?
  }

  lemma StepInv(s: Setup, owner: Principal, a: State, r: Request, a': State, code: Code)
    requires AtRest(s, a) && Step(s, owner, a, r, a', code)
    ensures AtRest(s, a')
    ensures code != EvaluationError
    ensures a'.phase.FsrFailed? ==> a.phase.FsrFailed? || a.round == 1
  {
    hide Ended, QueueReady, Submitted, Assigned, StoredBids;
    match r
    case StartNextRound(who) =>
      if code == Success {
        StartRoundInv(s, a);
      }
    case SubmitClockBid(who, bid) =>
      if code == Success {
        StoreBidInv(s, a, who, bid);
      } else {
        CheckNeverErrs(s, a, who, bid);
      }
    case EndRound(who, auctionId, queue, draws) =>
      if a.active && a.phase.ClockPhase? && who == owner {
        EndedInv(s, a, auctionId, queue, draws);
      }
  }

  lemma CheckNeverErrs(s: Setup, a: State, who: Principal, bid: Bid)
    requires Rows(s, a, |a.licences|) && a.round <= |a.posted| && Listed(s)
    ensures BidCheck(s, a, who, bid) != EvaluationError
  {
    hide Rows, Listed;
    if SubmitterId(s.bidders, who) != 0 {
      SubmitterCovered(s, who);
      DemandsNeverErr(s, a, EligibilityNumber(s.eligibilities, SubmitterId(s.bidders, who)).value, bid.demands, 0);
    }
  }

  lemma {:induction false} DemandsNeverErr(s: Setup, a: State, limit: nat, demands: seq<Demand>, i: nat)
    requires Rows(s, a, |a.licences|) && a.round <= |a.posted| && i <= |demands|
    ensures DemandsCheck(s, a, limit, demands, i) != EvaluationError
    decreases |demands| - i
  {
    hide Rows;
    if i < |demands| {
      DemandsNeverErr(s, a, limit, demands, i + 1);
    }
  }
}
