/**
 * The auction state as the source keeps it: one object whose vectors are updated in place, round by round
 * (DynamicAuctionState in demo/chaincode/fpc/auction-state.cpp and demo/chaincode/fpc/evaluate.cpp).
 */
module DynamicState {
  import opened Tally
  import opened Basics
  import opened AuctionSetup
  import opened Lookups
  import opened BidLoop
  import opened Bids
  import opened BidQueue
  import opened Enqueue
  import opened Assignment
  import A = Auction
  import opened AuctionRuns

  class DynamicAuctionState {
    var phase: A.Phase
    var round: nat
    var active: bool
    var posted: seq<seq<real>>
    var clock: seq<seq<real>>
    var eligibility: seq<seq<nat>>
    var bids: seq<seq<Bid>>
    var excess: seq<seq<int>>
    var licences: seq<Table>
    var winAssign: seq<seq<int>>
    var assignCost: seq<seq<real>>
    var channelPrice: seq<seq<real>>

    function View(): A.State
      reads this
    {
      A.State(phase, round, active, posted, clock, eligibility, bids, excess, licences,
              winAssign, assignCost, channelPrice)
    }

    constructor (s: Setup)
      ensures View() == A.Initialize(s)
    {
      phase, round, active := A.ClockPhase, 1, false;
      var prices := s.InitialPrices();
      posted := [prices, seq(|prices|, _ => 0.0)];
      var raised := prices;
      for i := 0 to |raised|
        invariant |raised| == |prices|
        invariant forall t :: 0 <= t < i ==> raised[t] == A.Raised(s, prices)[t]
        invariant forall t :: i <= t < |prices| ==> raised[t] == prices[t]
      {
        raised := raised[i := raised[i] * A.Factor(s)];
      }
      assert raised == A.Raised(s, prices);
      clock := [[], raised];
      eligibility := [[], s.InitialEligibilities()];
      bids, licences, excess := [[]], [[]], [[]];
      winAssign, assignCost, channelPrice := [], [], [];
    }

    method StartRound(s: Setup)
      modifies this`bids, this`active
      ensures View() == A.StartRound(s, old(View()))
    {
      if phase.ClockPhase? {
        if |bids| < round + 1 {
          bids := bids + [seq(s.BidderCount(), _ => NO_BID)];
        }
      }
      active := true;
    }

    method EndRound()
      modifies this`active
      ensures View() == old(View()).(active := false)
    {
      active := false;
    }

    /** The checks made for one demand of a bid. */
    method CheckDemand(s: Setup, bidderId: nat, demands: seq<Demand>, i: nat, seen: set<nat>) returns (code: A.Code)
      requires A.Rows(s, View(), |licences|) && i < |demands|
      requires EligibilityNumber(s.eligibilities, bidderId).Some?
      requires forall x :: x in seen <==> x in Ids(demands[..i])
      ensures code == A.DemandCheck(s, View(), EligibilityNumber(s.eligibilities, bidderId).value, demands, i)
    {
      var d := demands[i];
      var t := GetTerritoryIndex(s, d.territoryId);
      if t == -1 {
        return A.UnrecognizedTerritory;
      }
      if d.territoryId in seen {
        return A.DuplicateTerritories;
      }
      if d.quantity > |s.territories[t].channels| {
        return A.TooMuchDemand;
      }
      if round == 1 {
        var elig := GetEligibilityNumber(s, bidderId);
        var total := SumQuantityDemands(demands);
        return if total > elig.value then A.NotEnoughEligibility else A.Success;
      }
      if d.price < posted[round - 1][t] {
        return A.BelowPostedPrice;
      }
      return if d.price > clock[round][t] then A.AboveClockPrice else A.Success;
    }

    /** The checks of one demand after the other, with the first failure reported. */
    method CheckDemands(s: Setup, bidderId: nat, demands: seq<Demand>) returns (code: A.Code)
      requires A.Rows(s, View(), |licences|) && EligibilityNumber(s.eligibilities, bidderId).Some?
      ensures code == A.DemandsCheck(s, View(), EligibilityNumber(s.eligibilities, bidderId).value, demands, 0)
    {
      ghost var limit := EligibilityNumber(s.eligibilities, bidderId).value;
      assert round <= |posted|;
      hide A.Rows, A.DemandCheck, EligibilityNumber;
      var seen: set<nat> := {};
      for i := 0 to |demands|
        invariant forall x :: x in seen <==> x in Ids(demands[..i])
        invariant A.DemandsCheck(s, View(), limit, demands, 0) == A.DemandsCheck(s, View(), limit, demands, i)
      {
        var c := CheckDemand(s, bidderId, demands, i, seen);
        if c != A.Success {
          return c;
        }
        assert demands[..i + 1] == demands[..i] + [demands[i]];
        assert Ids(demands[..i + 1]) == Ids(demands[..i]) + [demands[i].territoryId];
        seen := seen + {demands[i].territoryId};
      }
      return A.Success;
    }

    /** The bid checks, in the order of the source. */
    method IsValidBid(s: Setup, submitter: Principal, bid: Bid) returns (code: A.Code)
      requires A.Rows(s, View(), |licences|) && Listed(s)
      ensures code == A.BidCheck(s, View(), submitter, bid)
    {
      var id := FromPrincipalToBidderId(s, submitter);
      if id == 0 {
        return A.UnrecognizedSubmitter;
      }
      if round != bid.round {
        return A.RoundNotCurrent;
      }
      if !active {
        return A.RoundNotActive;
      }
      A.SubmitterCovered(s, submitter);
      code := CheckDemands(s, id, bid.demands);
    }

    method StoreBid(s: Setup, submitter: Principal, bid: Bid)
      requires A.SubmitterIndex(s, submitter).Some? && A.SubmitterIndex(s, submitter).value < s.BidderCount()
      requires round < |bids| && |bids[round]| == s.BidderCount()
      modifies this`bids
      ensures View() == A.StoreBid(s, old(View()), A.SubmitterIndex(s, submitter).value, bid)
    {
      var id := FromPrincipalToBidderId(s, submitter);
      var b := FromBidderIdToBidderIndex(s, id);
      bids := bids[round := bids[round][b := bid]];
    }

    // ----- evaluation of a round -----

    /** The ids of the territories that a demand list does not mention, in ascending order. */
    static method MissingOf(s: Setup, demands: seq<Demand>) returns (diff: seq<nat>)
      requires Distinct(s.TerritoryIds())
      ensures diff == MissingIds(s, demands)
    {
      hide Outside;
      var territoryIds := SortIds(s.TerritoryIds());
      var demanded := GetDemandedTerritoryIds(demands);
      diff := SetDifference(territoryIds, SortIds(demanded));
      OutsideSameMembers(territoryIds, SortIds(demanded), demanded);
    }

    /** Add to one bid a zero demand for every territory that it does not mention. */
    static method FillBid(s: Setup, bid: Bid, auctionId: nat, round: nat, fallback: seq<real>) returns (filled: Bid)
      requires Distinct(s.TerritoryIds()) && |fallback| == s.TerritoryCount()
      ensures filled == Bid(auctionId, round, FilledDemands(s, bid.demands, fallback))
    {
      hide MissingIds, MissingDemands, Position;
      var diff := MissingOf(s, bid.demands);
      var demands := bid.demands;
      for j := 0 to |diff|
        invariant demands == bid.demands + MissingDemands(s, bid.demands, fallback)[..j]
      {
        MissingAt(s, bid.demands, fallback, j);
        var t := GetTerritoryIndex(s, diff[j]);
        demands := demands + [Demand(diff[j], 0, fallback[t])];
      }
      filled := Bid(auctionId, round, demands);
    }

    method FillMissingBids(s: Setup, auctionId: nat)
      requires A.CanEvaluate(s, View()) && Distinct(s.TerritoryIds())
      modifies this`bids
      ensures View() == A.FillMissing(s, old(View()), auctionId)
    {
      ghost var row := A.FilledRow(s, bids[round], auctionId, round, posted[round - 1]);
      for i := 0 to s.BidderCount()
        invariant |bids| == |old(bids)| && |bids[round]| == |row|
        invariant forall k :: 0 <= k < |bids| && k != round ==> bids[k] == old(bids)[k]
        invariant forall b :: 0 <= b < i ==> bids[round][b] == row[b]
        invariant forall b :: i <= b < |row| ==> bids[round][b] == old(bids)[round][b]
      {
        var filled := FillBid(s, bids[round][i], auctionId, round, posted[round - 1]);
        bids := bids[round := bids[round][i := filled]];
      }
      assert bids[round] == row;
      assert bids == old(bids)[round := row];
    }

    /** The licences that round 1 grants to one bidder. */
    static method GrantDemands(s: Setup, demands: seq<Demand>) returns (row: seq<nat>)
      requires Distinct(s.TerritoryIds()) && DemandsWithin(s, demands)
      ensures row == QuantityRow(s, demands)
    {
      row := seq(s.TerritoryCount(), _ => 0);
      assert row == QuantityRow(s, demands[..0]);
      hide QuantityRow, DemandsWithin, Position;
      for j := 0 to |demands|
        invariant |row| == s.TerritoryCount() && row == QuantityRow(s, demands[..j])
      {
        GrantStep(s, demands, j);
        var t := GetTerritoryIndex(s, demands[j].territoryId);
        row := row[t := demands[j].quantity];
      }
      assert demands[..|demands|] == demands;
    }

    static method GrantAll(s: Setup, row: seq<Bid>, fallback: seq<real>) returns (table: Table)
      requires Distinct(s.TerritoryIds()) && |fallback| == s.TerritoryCount()
      requires forall b :: 0 <= b < |row| ==> DemandsWithin(s, row[b].demands)
      ensures |table| == |row|
      ensures forall b :: 0 <= b < |row| ==> table[b] == Quantities(TargetRow(s, row[b].demands, fallback))
    {
      table := [];
      hide DemandsWithin, TargetRow, QuantityRow;
      for i := 0 to |row|
        invariant |table| == i
        invariant forall b :: 0 <= b < i ==> table[b] == Quantities(TargetRow(s, row[b].demands, fallback))
      {
        TargetQuantities(s, row[i].demands, fallback);
        var granted := GrantDemands(s, row[i].demands);
        table := table + [granted];
      }
    }

    method ProcessInitialRoundBids(s: Setup, auctionId: nat)
      requires Evaluable(s, View()) && round == 1
      modifies this`bids, this`licences, this`posted
      ensures View() == A.InitialRound(s, A.FillMissing(s, old(View()), auctionId))
    {
      FillMissingInv(s, View(), auctionId);
      FillMissingBids(s, auctionId);
      ghost var a := View();
      EvaluableDemands(s, a);
      hide Evaluable, DemandsWithin, TargetRow;
      var table := GrantAll(s, bids[1], posted[0]);
      assert table == A.QuantityTable(A.Targets(s, a, 1));
      licences := licences[..1] + [table];
      posted := posted[..1] + [s.InitialPrices()];
    }

    /** The posted prices that a later round starts from. */
    static method PresetPostedPrices(c: Context) returns (prices: seq<real>)
      requires |c.excess0| == |c.clock| == |c.posted0|
      ensures prices == A.PresetPrices(c)
    {
      prices := [];
      for i := 0 to |c.posted0|
        invariant prices == A.PresetPrices(c)[..i]
      {
        prices := prices + [if c.excess0[i] > 0 then c.clock[i] else c.posted0[i]];
      }
    }

    /** The eligibility left to each bidder; the subtraction is safe because eligibility covers the licences held. */
    static method AvailableEligibility(eligibility: seq<nat>, held: Table) returns (caps: seq<nat>)
      requires |eligibility| == |held|
      requires forall b :: 0 <= b < |held| ==> Sum(held[b]) <= eligibility[b]
      ensures caps == A.EligibilityCaps(eligibility, held)
    {
      caps := eligibility;
      for i := 0 to |held|
        invariant |caps| == |held|
        invariant forall b :: 0 <= b < i ==> caps[b] == eligibility[b] - Sum(held[b])
        invariant forall b :: i <= b < |held| ==> caps[b] == eligibility[b]
      {
        caps := caps[i := caps[i] - Sum(held[i])];
      }
    }

    /** The queue of all changed demands, in bidder order. */
    method EnqueueBids(s: Setup, ghost c: Context, random: Oracle, undefinedPoint: Oracle)
      returns (queue: seq<QueuedBid>)
      requires A.CanSettle(s, View()) && c == A.ContextOf(s, View()) && ContextOk(c)
      requires Distinct(s.TerritoryIds())
      requires forall b :: 0 <= b < s.BidderCount() ==> Complete(s, bids[round][b].demands)
      ensures FirstQueued(c, queue, s.BidderCount())
      ensures AllPointed(queue, c.posted0, c.clock, random)
    {
      queue := [];
      hide Complete, TargetRow, ContextOk, RowQueued;
      for i := 0 to s.BidderCount()
        invariant FirstQueued(c, queue, i)
        invariant AllPointed(queue, c.posted0, c.clock, random)
      {
        var demands := bids[round][i].demands;
        assert c.target[i] == TargetRow(s, demands, c.posted0);
        var entries := EnqueueBidder(s, i, demands, licences[round - 1][i], posted[round - 1], clock[round],
                                     random, undefinedPoint);
        NextQueued(s, c, queue, i, demands, entries);
        queue := queue + entries;
      }
    }

    ghost function BoardWith(cap: seq<nat>): Board
      reads this
      requires round < |licences| && round < |excess| && round < |posted|
    {
      Board(licences[round], excess[round], cap, posted[round])
    }

    /** Apply one processable bid to the rows of the current round, as far as possible. */
    method ApplyBid(bid: QueuedBid, eligibilityCap: seq<nat>) returns (cap: seq<nat>, fullyApplied: bool)
      requires round < |licences| && round < |excess| && round < |posted| && round < |clock|
      requires InRange(BoardWith(eligibilityCap), bid) && bid.territory < |clock[round]|
      requires Processable(BoardWith(eligibilityCap), bid)
      modifies this`licences, this`excess, this`posted
      ensures |licences| == |old(licences)| && |excess| == |old(excess)| && |posted| == |old(posted)|
      ensures BoardWith(cap) == Apply(old(BoardWith(eligibilityCap)), bid, clock[round])
      ensures fullyApplied <==> old(Amount(BoardWith(eligibilityCap), bid) == Gap(BoardWith(eligibilityCap), bid))
      ensures licences == old(licences)[round := licences[round]]
      ensures excess == old(excess)[round := excess[round]]
      ensures posted == old(posted)[round := posted[round]]
    {
      var b, t := bid.bidder, bid.territory;
      var owned, demanded := licences[round][b][t], bid.demand.quantity;
      cap := eligibilityCap;
      if demanded > owned {
        var delta := demanded - owned;
        var n := if delta <= cap[b] then delta else cap[b];
        fullyApplied := n == delta;
        licences := licences[round := SetCell(licences[round], b, t, owned + n)];
        excess := excess[round := excess[round][t := excess[round][t] + n]];
        cap := cap[b := cap[b] - n];
        if excess[round][t] - n == 0 {
          posted := posted[round := posted[round][t := clock[round][t]]];
        }
      } else {
        var delta := owned - demanded;
        var n := if delta <= excess[round][t] then delta else excess[round][t];
        fullyApplied := n == delta;
        licences := licences[round := SetCell(licences[round], b, t, owned - n)];
        excess := excess[round := excess[round][t := excess[round][t] - n]];
        cap := cap[b := cap[b] + n];
        if excess[round][t] == 0 {
          posted := posted[round := posted[round][t := bid.demand.price]];
        }
      }
    }

    /**
     * The restarting loop: take the next queued bid; skip it if it cannot be processed; otherwise apply it as
     * far as possible, drop it if nothing is left of it, and start again from the head of the queue.
     */
    method ProcessQueue(ghost c: Context, bidQueue: seq<QueuedBid>, eligibilityCap: seq<nat>)
      requires round < |licences| && round < |excess| && round < |posted| && round < |clock|
      requires c.clock == clock[round]
      requires Live(c, BoardWith(eligibilityCap), bidQueue)
      modifies this`licences, this`excess, this`posted
      ensures |licences| == |old(licences)| && |excess| == |old(excess)| && |posted| == |old(posted)|
      ensures var f := Settle(c, old(BoardWith(eligibilityCap)), bidQueue).board;
              && licences == old(licences)[round := f.held]
              && excess == old(excess)[round := f.excess]
              && posted == old(posted)[round := f.posted]
    {
      hide Live, Settle, QueueInv;
      var queue, it := bidQueue, 0;
      var cap: seq<nat> := eligibilityCap;
      while it < |queue|
        invariant |licences| == |old(licences)| && |excess| == |old(excess)| && |posted| == |old(posted)|
        invariant licences == old(licences)[round := licences[round]]
        invariant excess == old(excess)[round := excess[round]]
        invariant posted == old(posted)[round := posted[round]]
        invariant 0 <= it <= |queue|
        invariant Live(c, BoardWith(cap), queue)
        invariant forall i :: 0 <= i < it ==>
                    InRange(BoardWith(cap), queue[i]) && !Processable(BoardWith(cap), queue[i])
        invariant Settle(c, BoardWith(cap), queue) == Settle(c, old(BoardWith(eligibilityCap)), bidQueue)
        decreases Remaining(c, BoardWith(cap)), |queue| - it
      {
        ghost var w := BoardWith(cap);
        LiveEntry(c, w, queue, it);
        var bid := queue[it];
        var owned := licences[round][bid.bidder][bid.territory];
        if bid.demand.quantity > owned && cap[bid.bidder] == 0 {
          it := it + 1;
          continue;
        }
        if bid.demand.quantity <= owned && excess[round][bid.territory] <= 0 {
          it := it + 1;
          continue;
        }
        SettleStep(c, w, queue, it);
        var fullyApplied;
        cap, fullyApplied := ApplyBid(bid, cap);
        if fullyApplied {
          queue := Without(queue, it);
        }
        it := 0;
      }
      SettleEnd(c, BoardWith(cap), queue);
    }

    /** Start the rows of a later round from those of the previous one. */
    method OpenRows(s: Setup) returns (caps: seq<nat>)
      requires A.CanSettle(s, View())
      modifies this`licences, this`excess, this`posted
      ensures var w := A.OpeningBoard(s, old(View()));
              && caps == w.cap
              && View() == old(View()).(licences := old(licences) + [w.held], excess := old(excess) + [w.excess],
                                        posted := old(posted) + [w.posted])
    {
      var prices := PresetPostedPrices(
        Context([], [], [], excess[round - 1], posted[round - 1], clock[round], []));
      posted := posted + [prices];
      licences := licences + [licences[round - 1]];
      caps := AvailableEligibility(eligibility[round], licences[round - 1]);
      excess := excess + [excess[round - 1]];
    }

    /** The changed demands in the order in which they are processed. */
    method SortedQueue(s: Setup, random: Oracle, undefinedPoint: Oracle) returns (queue: seq<QueuedBid>)
      requires ReadyToSettle(s, View())
      ensures Live(A.ContextOf(s, View()), A.OpeningBoard(s, View()), queue)
      ensures Prioritised(queue, View(), random)
    {
      hide Complete, ContextOk, RoundInv, A.OpeningBoard, FirstQueued, Live;
      ghost var c := A.ContextOf(s, View());
      var enqueued := EnqueueBids(s, c, random, undefinedPoint);
      queue := SortBids(enqueued);
      QueueIsLive(s, View(), enqueued, queue);
      RearrangedMembers(enqueued, queue);
      forall k | 0 <= k < |queue| ensures PointedAt(queue[k], c.posted0, c.clock) && Drawn(queue[k], random) {
        assert queue[k] in enqueued;
      }
    }

    /** Queue and sort the changes, preset prices, then process the queue. */
    method SettleRound(s: Setup, random: Oracle, undefinedPoint: Oracle) returns (ghost queue: seq<QueuedBid>)
      requires ReadyToSettle(s, View())
      modifies this`licences, this`excess, this`posted
      ensures A.QueueReady(s, old(View()), queue) && Prioritised(queue, old(View()), random)
      ensures View() == A.RegularRound(s, old(View()), queue)
    {
      ghost var a := View();
      var sorted := SortedQueue(s, random, undefinedPoint);
      queue := sorted;
      var caps := OpenRows(s);
      RunQueue(s, a, sorted, caps);
    }

    /** Process the queue of a round whose rows are open. */
    method RunQueue(s: Setup, ghost a: A.State, sorted: seq<QueuedBid>, caps: seq<nat>)
      requires A.CanSettle(s, a) && Live(A.ContextOf(s, a), A.OpeningBoard(s, a), sorted)
      requires var w := A.OpeningBoard(s, a);
               && caps == w.cap
               && View() == a.(licences := a.licences + [w.held], excess := a.excess + [w.excess],
                               posted := a.posted + [w.posted])
      modifies this`licences, this`excess, this`posted
      ensures View() == A.RegularRound(s, a, sorted)
    {
      ghost var c, w := A.ContextOf(s, a), A.OpeningBoard(s, a);
      assert BoardWith(caps) == w;
      hide ContextOk, QueueInv;
      ProcessQueue(c, sorted, caps);
      ghost var f := Settle(c, w, sorted).board;
      AppendThenUpdate(a.licences, w.held, f.held);
      AppendThenUpdate(a.excess, w.excess, f.excess);
      AppendThenUpdate(a.posted, w.posted, f.posted);
    }

    /** Evaluate a later round. */
    method ProcessRegularRoundBids(s: Setup, auctionId: nat, random: Oracle, undefinedPoint: Oracle)
      returns (ghost queue: seq<QueuedBid>)
      requires Evaluable(s, View()) && round > 1
      modifies this`bids, this`licences, this`excess, this`posted
      ensures A.QueueReady(s, A.FillMissing(s, old(View()), auctionId), queue)
      ensures Prioritised(queue, old(View()), random)
      ensures View() == A.RegularRound(s, A.FillMissing(s, old(View()), auctionId), queue)
    {
      FilledIsReady(s, View(), auctionId);
      ghost var a := View();
      hide Evaluable, ReadyToSettle, Prioritised, A.RegularRound;
      FillMissingBids(s, auctionId);
      queue := SettleRound(s, random, undefinedPoint);
      FilledPriority(s, a, auctionId, queue, random);
    }

    // ----- conclusion of a round -----

    /** Aggregate the demand of each territory over the bidders and subtract the supply. */
    static method RoundExcessDemand(s: Setup, table: Table) returns (excess: seq<int>)
      requires Rectangular(table, s.BidderCount(), s.TerritoryCount())
      ensures excess == A.ExcessOf(s, table)
    {
      excess := [];
      for i := 0 to s.TerritoryCount()
        invariant excess == A.ExcessOf(s, table)[..i]
      {
        var aggregated: int := 0;
        var column := Column(table, i);
        for j := 0 to s.BidderCount()
          invariant aggregated == Sum(column[..j])
        {
          assert column[..j + 1] == column[..j] + [column[j]];
          SumAppend(column[..j], column[j]);
          aggregated := aggregated + table[j][i];
        }
        assert column[..s.BidderCount()] == column;
        excess := excess + [aggregated - s.Supply()[i]];
      }
    }

    static method NewRoundEligibility(s: Setup, eligibility: seq<nat>, table: Table) returns (next: seq<nat>)
      requires s.activityPercent <= 100 && |eligibility| == |table|
      ensures next == A.NextEligibilities(s, eligibility, table)
    {
      next := [];
      for i := 0 to |eligibility|
        invariant next == A.NextEligibilities(s, eligibility, table)[..i]
      {
        var activity := 0;
        for j := 0 to |table[i]|
          invariant activity == Sum(table[i][..j])
        {
          assert table[i][..j + 1] == table[i][..j] + [table[i][j]];
          SumAppend(table[i][..j], table[i][j]);
          activity := activity + table[i][j];
        }
        assert table[i][..|table[i]|] == table[i];
        next := next + [A.NextEligibility(eligibility[i], activity, s.activityPercent)];
      }
    }

    static method NewRoundClockPrice(s: Setup, prices: seq<real>) returns (raised: seq<real>)
      ensures raised == A.Raised(s, prices)
    {
      raised := prices;
      for j := 0 to |prices|
        invariant |raised| == |prices|
        invariant forall t :: 0 <= t < j ==> raised[t] == A.Raised(s, prices)[t]
        invariant forall t :: j <= t < |prices| ==> raised[t] == prices[t]
      {
        raised := raised[j := raised[j] * A.Factor(s)];
      }
    }

    static method FinalStageRule(s: Setup, excess: seq<int>) returns (failed: bool)
      requires |excess| == s.TerritoryCount()
      ensures failed <==> A.FailsFinalStage(s, excess)
    {
      failed := false;
      for i := 0 to |excess|
        invariant failed <==> exists t :: 0 <= t < i && excess[t] < 0 && s.territories[t].highDemand
      {
        if excess[i] < 0 && s.territories[i].highDemand {
          failed := true;
        }
      }
    }

    /** The largest element is at most zero; the vector is not empty. */
    static method MaxElementAtMostZero(excess: seq<int>) returns (none: bool)
      requires excess != []
      ensures none <==> A.NoExcess(excess)
    {
      var largest := excess[0];
      for i := 1 to |excess|
        invariant forall t :: 0 <= t < i ==> excess[t] <= largest
        invariant exists t :: 0 <= t < i && excess[t] == largest
      {
        if excess[i] > largest {
          largest := excess[i];
        }
      }
      none := largest <= 0;
    }

    /** The clock phase goes on: next eligibility, next clock price, next round. */
    method AdvanceRound(s: Setup)
      requires round < |licences| && round < |posted| && round < |eligibility|
      requires s.activityPercent <= 100 && |eligibility[round]| == |licences[round]|
      modifies this`eligibility, this`clock, this`round
      ensures View() == old(View()).(
                eligibility := old(eligibility)
                  + [A.NextEligibilities(s, old(eligibility)[old(round)], licences[old(round)])],
                clock := old(clock) + [A.Raised(s, posted[old(round)])],
                round := old(round) + 1)
    {
      var next := NewRoundEligibility(s, eligibility[round], licences[round]);
      eligibility := eligibility + [next];
      var raised := NewRoundClockPrice(s, posted[round]);
      clock := clock + [raised];
      round := round + 1;
    }

    method ProcessBidsPostamble(s: Setup) returns (code: A.Code)
      requires A.CanConclude(s, View()) && s.TerritoryCount() > 0
      modifies this`excess, this`phase, this`eligibility, this`clock, this`round
      ensures (View(), code) == A.Conclude(s, old(View()))
    {
      code := A.Success;
      var roundExcess := RoundExcessDemand(s, licences[round]);
      if |excess| == round {
        excess := excess + [roundExcess];
      } else if excess[round] != roundExcess {
        code := A.EvaluationError;
        return;
      }
      var failed := FinalStageRule(s, roundExcess);
      if failed {
        phase := A.FsrFailed;
      }
      if phase.ClockPhase? {
        var none := MaxElementAtMostZero(roundExcess);
        if none {
          phase := A.AssignmentPhase;
        } else {
          AdvanceRound(s);
        }
      }
    }

    // ----- assignment -----

    static method ChannelPrices(s: Setup, t: nat, postedPrice: real) returns (prices: seq<real>)
      requires t < s.TerritoryCount()
      ensures |prices| == |s.territories[t].channels|
      ensures forall c :: 0 <= c < |prices| ==>
                prices[c] == ChannelPrice(postedPrice, s.territories[t].channels[c].impairment)
    {
      prices := [];
      for j := 0 to |s.territories[t].channels|
        invariant |prices| == j
        invariant forall c :: 0 <= c < j ==>
                    prices[c] == ChannelPrice(postedPrice, s.territories[t].channels[c].impairment)
      {
        prices := prices + [ChannelPrice(postedPrice, s.territories[t].channels[j].impairment)];
      }
    }

    /** Shuffle the channels of one territory, price them and hand them to the winning bidders. */
    method AssignTerritory(s: Setup, i: nat, draws: seq<nat>) returns (owners: seq<int>, prices: seq<real>)
      requires A.CanAssign(s, View()) && i < s.TerritoryCount() && |draws| == s.Supply()[i]
      ensures owners == A.WinnersOf(s, View(), draws, i)
      ensures prices == A.PricesOf(s, View(), i)
    {
      var indexes := RandomChannelIndexes(s.Supply()[i], draws);
      prices := ChannelPrices(s, i, posted[round][i]);
      assert A.ExcessOf(s, licences[round])[i] <= 0;
      owners := AssignChannels(indexes, Column(licences[round], i));
    }

    method AssignTerritories(s: Setup, draws: seq<seq<nat>>)
      returns (win: seq<seq<int>>, cost: seq<seq<real>>, price: seq<seq<real>>)
      requires A.CanAssign(s, View()) && A.DrawsFor(s, draws)
      ensures |win| == |cost| == |price| == s.TerritoryCount()
      ensures forall t :: 0 <= t < |win| ==>
                && win[t] == A.WinnersOf(s, View(), draws[t], t)
                && cost[t] == seq(s.BidderCount(), _ => 0.0)
                && price[t] == A.PricesOf(s, View(), t)
    {
      win, cost, price := [], [], [];
      hide A.WinnersOf, A.PricesOf, A.ExcessOf, A.NoExcess;
      for i := 0 to s.TerritoryCount()
        invariant |win| == |cost| == |price| == i
        invariant forall t :: 0 <= t < i ==>
                    && win[t] == A.WinnersOf(s, View(), draws[t], t)
                    && cost[t] == seq(s.BidderCount(), _ => 0.0)
                    && price[t] == A.PricesOf(s, View(), t)
      {
        var owners, prices := AssignTerritory(s, i, draws[i]);
        win, cost, price := win + [owners], cost + [seq(s.BidderCount(), _ => 0.0)], price + [prices];
      }
    }

    method ProcessAssignmentRound(s: Setup, draws: seq<seq<nat>>)
      requires A.CanAssign(s, View()) && A.DrawsFor(s, draws)
      modifies this`winAssign, this`assignCost, this`channelPrice, this`phase
      ensures View() == A.AssignmentRound(s, old(View()), draws)
    {
      var win, cost, price := AssignTerritories(s, draws);
      ghost var done := A.AssignmentRound(s, View(), draws);
      assert win == done.winAssign && cost == done.assignCost && price == done.channelPrice;
      winAssign, assignCost, channelPrice := win, cost, price;
      phase := A.Closed;
    }
  }

  /**
   * The order of a queue: cheapest first, by price points between last round's posted and this round's clock prices;
   * ties are broken by the drawn values.
   */
  ghost predicate Prioritised(queue: seq<QueuedBid>, a: A.State, random: Oracle) {
    && CheapestFirst(queue)
    && (queue == [] ||
        (1 <= a.round <= |a.posted| && a.round < |a.clock|
         && AllPointed(queue, a.posted[a.round - 1], a.clock[a.round], random)))
  }

  /** Filling in bids and ending a round leave prices alone, and so the order of a queue. */
  lemma FilledPriority(s: Setup, a: A.State, auctionId: nat, queue: seq<QueuedBid>, random: Oracle)
    requires A.CanEvaluate(s, a)
    ensures Prioritised(queue, A.FillMissing(s, a, auctionId), random) <==> Prioritised(queue, a, random)
  {
    hide CheapestFirst, AllPointed, A.FilledRow;
  }

  lemma EndedPriority(a: A.State, queue: seq<QueuedBid>, random: Oracle)
    ensures Prioritised(queue, a.(active := false), random) <==> Prioritised(queue, a, random)
  {
    hide CheapestFirst, AllPointed;
  }

  lemma AppendThenUpdate<T>(s: seq<T>, x: T, y: T)
    ensures (s + [x])[|s| := y] == s + [y]
  {
  }

  /** Everything that settling a later round relies on. */
  predicate ReadyToSettle(s: Setup, a: A.State) {
    && A.CanSettle(s, a)
    && ContextOk(A.ContextOf(s, a))
    && RoundInv(A.ContextOf(s, a), A.OpeningBoard(s, a))
    && Distinct(s.TerritoryIds())
    && forall b :: 0 <= b < s.BidderCount() ==> Complete(s, a.bids[a.round][b].demands)
  }

  lemma FilledIsReady(s: Setup, a: A.State, auctionId: nat)
    requires Evaluable(s, a) && a.round > 1
    ensures Distinct(s.TerritoryIds())
    ensures ReadyToSettle(s, A.FillMissing(s, a, auctionId))
  {
    FillMissingInv(s, a, auctionId);
    ContextReady(s, A.FillMissing(s, a, auctionId));
    EvaluableDemands(s, a);
    hide Evaluable, RoundInv, A.ContextOf, A.OpeningBoard, Complete, DemandsWithin, FilledDemands;
    forall b | 0 <= b < s.BidderCount()
      ensures Complete(s, A.FillMissing(s, a, auctionId).bids[a.round][b].demands)
    {
      FilledComplete(s, a.bids[a.round][b].demands, a.posted[a.round - 1]);
    }
  }

  lemma QueueIsLive(s: Setup, a: A.State, enqueued: seq<QueuedBid>, sorted: seq<QueuedBid>)
    requires A.CanSettle(s, a) && ContextOk(A.ContextOf(s, a))
    requires RoundInv(A.ContextOf(s, a), A.OpeningBoard(s, a))
    requires FirstQueued(A.ContextOf(s, a), enqueued, s.BidderCount())
    requires multiset(sorted) == multiset(enqueued)
    ensures Live(A.ContextOf(s, a), A.OpeningBoard(s, a), sorted)
  {
    var c, w := A.ContextOf(s, a), A.OpeningBoard(s, a);
    assert QueueInv(c, w, enqueued);
    RearrangedQueue(c, w, enqueued, sorted);
  }

  /** How far the board is from the demands. */
  ghost function Remaining(c: Context, w: Board): nat {
    if ContextOk(c) && Shape(c, w) then Distance(w.held, c.target) else 0
  }

  lemma LiveEntry(c: Context, w: Board, queue: seq<QueuedBid>, k: nat)
    requires Live(c, w, queue) && k < |queue|
    ensures InRange(w, queue[k]) && queue[k].territory < |c.clock|
  {
    QueueEntry(c, w, queue, k);
  }

  /** One turn of the loop is one step of the simple rule. */
  lemma SettleStep(c: Context, w: Board, queue: seq<QueuedBid>, k: nat)
    requires Live(c, w, queue) && k < |queue|
    requires InRange(w, queue[k]) && Processable(w, queue[k])
    requires forall i :: 0 <= i < k ==> InRange(w, queue[i]) && !Processable(w, queue[i])
    ensures queue[k].territory < |c.clock|
    ensures var w' := Apply(w, queue[k], c.clock);
            && Live(c, w', QueueAfter(w, queue, k))
            && Settle(c, w, queue) == Settle(c, w', QueueAfter(w, queue, k))
            && Remaining(c, w') < Remaining(c, w)
  {
    QueueEntry(c, w, queue, k);
    ApplyKeepsQueueInv(c, w, queue, k);
    ApplyShortensDistance(c, w, queue[k]);
    var first := FirstProcessable(w, queue);
    assert first == k;
  }

  lemma SettleEnd(c: Context, w: Board, queue: seq<QueuedBid>)
    requires Live(c, w, queue)
    requires forall i :: 0 <= i < |queue| ==> InRange(w, queue[i]) && !Processable(w, queue[i])
    ensures Settle(c, w, queue) == Settlement(w, queue)
  {
  }

  lemma EvaluableDemands(s: Setup, a: A.State)
    requires Evaluable(s, a)
    ensures Distinct(s.TerritoryIds())
    ensures forall b :: 0 <= b < s.BidderCount() ==> DemandsWithin(s, a.bids[a.round][b].demands)
  {
    hide Opened, Evaluated, DemandsWithin;
    forall b | 0 <= b < s.BidderCount() ensures DemandsWithin(s, a.bids[a.round][b].demands) {
      assert A.BidFits(s, a, b, a.bids[a.round][b].demands);
    }
  }

  lemma GrantStep(s: Setup, demands: seq<Demand>, j: nat)
    requires Distinct(s.TerritoryIds()) && DemandsWithin(s, demands) && j < |demands|
    ensures var t := Position(s.TerritoryIds(), demands[j].territoryId);
            && t < s.TerritoryCount()
            && QuantityRow(s, demands[..j + 1]) == QuantityRow(s, demands[..j])[t := demands[j].quantity]
  {
    WithinPrefix(s, demands, j + 1);
    hide DemandsWithin, QuantityRow;
    assert demands[..j + 1] == demands[..j] + [demands[j]];
    LastDemand(s, demands[..j], demands[j]);
  }

  lemma WithinPrefix(s: Setup, demands: seq<Demand>, n: nat)
    requires DemandsWithin(s, demands) && n <= |demands|
    ensures DemandsWithin(s, demands[..n])
  {
    assert forall i :: 0 <= i < n ==> Ids(demands[..n])[i] == Ids(demands)[i];
  }
}
