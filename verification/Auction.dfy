/**
 * The run-time state of the clock auction and its operations as functions on values
 * (DynamicAuctionState in demo/chaincode/fpc/auction-state.cpp and demo/chaincode/fpc/evaluate.cpp).
 */
module Auction {
  import opened Tally
  import opened Basics
  import opened AuctionSetup
  import opened BidLoop
  import opened Bids
  import opened Assignment

  datatype Phase = ClockPhase | AssignmentPhase | FsrFailed | Closed

  /** The per-round vectors: the first index is the round; row 0 is a dummy except for posted prices. */
  datatype State = State(
    phase: Phase,
    round: nat,
    active: bool,
    posted: seq<seq<real>>,
    clock: seq<seq<real>>,
    eligibility: seq<seq<nat>>,
    bids: seq<seq<Bid>>,
    excess: seq<seq<int>>,
    licences: seq<Table>,
    winAssign: seq<seq<int>>,
    assignCost: seq<seq<real>>,
    channelPrice: seq<seq<real>>)

  datatype Code =
    | Success
    | RoundIsActive
    | RestrictedAuctionState
    | NotInClockPhase
    | RoundNotCurrent
    | UnrecognizedTerritory
    | DuplicateTerritories
    | RoundNotActive
    | NotEnoughEligibility
    | TooMuchDemand
    | UnrecognizedSubmitter
    | BelowPostedPrice
    | AboveClockPrice
    | EvaluationError

  // ----- creation and rounds -----

  function Factor(s: Setup): real {
    1.0 + s.incrementPercent as real / 100.0
  }

  function Raised(s: Setup, prices: seq<real>): (r: seq<real>)
    ensures |r| == |prices|
  {
    seq(|prices|, t requires 0 <= t < |prices| => prices[t] * Factor(s))
  }

  /** A raised price stands the increment above the price. */
  lemma RaisedExactly(s: Setup, prices: seq<real>, t: nat)
    requires t < |prices|
    ensures Raised(s, prices)[t] * 100.0 == prices[t] * (100 + s.incrementPercent) as real
  {
    var f := Factor(s);
    assert f * 100.0 == (100 + s.incrementPercent) as real;
    assert prices[t] * f * 100.0 == prices[t] * (f * 100.0);
  }

  function Initialize(s: Setup): State {
    State(ClockPhase, 1, false,
          [s.InitialPrices(), seq(s.TerritoryCount(), _ => 0.0)],
          [[], Raised(s, s.InitialPrices())],
          [[], s.InitialEligibilities()],
          [[]], [[]], [[]], [], [], [])
  }

  function StartRound(s: Setup, a: State): State {
    if a.phase.ClockPhase? && |a.bids| < a.round + 1 then
      a.(bids := a.bids + [seq(s.BidderCount(), _ => NO_BID)], active := true)
    else
      a.(active := true)
  }

  // ----- shape -----

  /** Row counts and widths once n - 1 rounds have licence rows. */
  predicate Rows(s: Setup, a: State, n: nat) {
    var B, T := s.BidderCount(), s.TerritoryCount();
    && 1 <= a.round <= n <= a.round + 1
    && |a.clock| == |a.eligibility| == a.round + 1
    && |a.licences| == n
    && |a.posted| == (if n < 2 then 2 else n)
    && n <= |a.bids| <= a.round + 1
    && (forall k :: 0 <= k < |a.posted| ==> |a.posted[k]| == T)
    && (forall k :: 1 <= k < |a.clock| ==> |a.clock[k]| == T)
    && (forall k :: 1 <= k < |a.eligibility| ==> |a.eligibility[k]| == B)
    && (forall k :: 1 <= k < |a.bids| ==> |a.bids[k]| == B)
    && (forall k :: 1 <= k < n ==> Rectangular(a.licences[k], B, T))
  }

  /** Aggregated demand minus supply, territory by territory. */
  function ExcessOf(s: Setup, licences: Table): (e: seq<int>)
    requires Rectangular(licences, s.BidderCount(), s.TerritoryCount())
    ensures |e| == s.TerritoryCount()
  {
    seq(s.TerritoryCount(), t requires 0 <= t < s.TerritoryCount() =>
      Sum(Column(licences, t)) - s.Supply()[t])
  }

  /** The stored excess demand of each evaluated round is the one its licences imply. */
  predicate Conservation(s: Setup, a: State)
    requires Rows(s, a, |a.licences|)
  {
    && 1 <= |a.excess| <= |a.licences|
    && forall k :: 1 <= k < |a.excess| ==> a.excess[k] == ExcessOf(s, a.licences[k])
  }

  // ----- bids -----

  function SubmitterIndex(s: Setup, p: Principal): Option<nat> {
    var id := SubmitterId(s.bidders, p);
    if id == 0 then None else Some(Position(BidderIds(s), id))
  }

  /** The checks made for one demand, in the order of the source. */
  function DemandCheck(s: Setup, a: State, limit: nat, demands: seq<Demand>, i: nat): Code
    requires Rows(s, a, |a.licences|) && a.round <= |a.posted|
    requires i < |demands|
  {
    var d := demands[i];
    var t := Position(s.TerritoryIds(), d.territoryId);
    if t == s.TerritoryCount() then UnrecognizedTerritory
    else if d.territoryId in Ids(demands[..i]) then DuplicateTerritories
    else if d.quantity > s.Supply()[t] then TooMuchDemand
    else if a.round == 1 then
      if Sum(Quantities(demands)) % WORD > limit then NotEnoughEligibility else Success
    else if d.price < a.posted[a.round - 1][t] then BelowPostedPrice
    else if d.price > a.clock[a.round][t] then AboveClockPrice
    else Success
  }

  /** The first failed check among the demands from i on. */
  function DemandsCheck(s: Setup, a: State, limit: nat, demands: seq<Demand>, i: nat): (c: Code)
    requires Rows(s, a, |a.licences|) && a.round <= |a.posted|
    requires i <= |demands|
    ensures c == Success ==> forall j :: i <= j < |demands| ==> DemandCheck(s, a, limit, demands, j) == Success
    decreases |demands| - i
  {
    if i == |demands| then Success
    else
      var c := DemandCheck(s, a, limit, demands, i);
      if c != Success then c else DemandsCheck(s, a, limit, demands, i + 1)
  }

  lemma SubmitterCovered(s: Setup, p: Principal)
    requires Listed(s) && SubmitterId(s.bidders, p) != 0
    ensures EligibilityNumber(s.eligibilities, SubmitterId(s.bidders, p)).Some?
    ensures SubmitterIndex(s, p).Some?
    ensures var b := SubmitterIndex(s, p).value;
            && b < s.BidderCount()
            && (Covered(s) ==>
                  Min(EligibilityNumber(s.eligibilities, SubmitterId(s.bidders, p)).value, Sum(s.Supply()))
                  <= s.InitialEligibilities()[b])
  {
    var id := SubmitterId(s.bidders, p);
    var i :| 0 <= i < |s.bidders| && s.bidders[i].id == id && s.bidders[i].principal == p;
    assert BidderIds(s)[i] == id;
    assert s.bidders[Position(BidderIds(s), id)].id == id;
  }

  function BidCheck(s: Setup, a: State, p: Principal, bid: Bid): Code
    requires Rows(s, a, |a.licences|) && a.round <= |a.posted| && Listed(s)
  {
    var id := SubmitterId(s.bidders, p);
    if id == 0 then UnrecognizedSubmitter
    else if a.round != bid.round then RoundNotCurrent
    else if !a.active then RoundNotActive
    else
      SubmitterCovered(s, p);
      DemandsCheck(s, a, EligibilityNumber(s.eligibilities, id).value, bid.demands, 0)
  }

  /** Demands that the evaluation of a round can rely on: within supply, and within eligibility or price limits. */
  predicate DemandsFit(s: Setup, round: nat, eligibility: nat, posted0: seq<real>, clock: seq<real>,
                       demands: seq<Demand>) {
    && |posted0| == |clock| == s.TerritoryCount()
    && DemandsWithin(s, demands)
    && (round == 1 ==> Sum(Quantities(demands)) <= eligibility)
    && (round > 1 ==> forall i :: 0 <= i < |demands| ==>
          var t := Position(s.TerritoryIds(), demands[i].territoryId);
          posted0[t] <= demands[i].price <= clock[t])
  }

  /** What an accepted or empty bid of bidder b guarantees to the evaluation of the current round. */
  predicate BidFits(s: Setup, a: State, b: nat, demands: seq<Demand>)
    requires Rows(s, a, |a.licences|) && b < s.BidderCount()
  {
    DemandsFit(s, a.round, a.eligibility[1][b], a.posted[a.round - 1], a.clock[a.round], demands)
  }

  lemma CheckedWithin(s: Setup, a: State, limit: nat, demands: seq<Demand>)
    requires Rows(s, a, |a.licences|) && a.round <= |a.posted|
    requires forall j :: 0 <= j < |demands| ==> DemandCheck(s, a, limit, demands, j) == Success
    ensures DemandsWithin(s, demands)
  {
    forall i, j | 0 <= i < j < |demands| ensures Ids(demands)[i] != Ids(demands)[j] {
      assert DemandCheck(s, a, limit, demands, j) == Success;
      assert Ids(demands[..j])[i] == Ids(demands)[i];
    }
    forall i | 0 <= i < |demands|
      ensures var t := Position(s.TerritoryIds(), demands[i].territoryId);
              t < s.TerritoryCount() && demands[i].quantity <= s.Supply()[t]
    {
      assert DemandCheck(s, a, limit, demands, i) == Success;
    }
  }

  /** A bid that passes the checks fits the submitter's place in the current round. */
  lemma BidCheckFits(s: Setup, a: State, p: Principal, bid: Bid)
    requires WellFormed(s) && Rows(s, a, |a.licences|) && a.round <= |a.posted|
    requires a.eligibility[1] == s.InitialEligibilities()
    requires BidCheck(s, a, p, bid) == Success
    ensures SubmitterIndex(s, p).Some?
    ensures SubmitterIndex(s, p).value < s.BidderCount()
    ensures BidFits(s, a, SubmitterIndex(s, p).value, bid.demands)
  {
    SubmitterCovered(s, p);
    var demands := bid.demands;
    var limit := EligibilityNumber(s.eligibilities, SubmitterId(s.bidders, p)).value;
    CheckedWithin(s, a, limit, demands);
    if a.round == 1 {
      TotalsDoNotWrap(s, demands);
      WithinTotals(s, demands);
    }
    hide DemandsWithin, Covered, Listed, EligibilityNumber, CheckValidity, SubmitterId;
    if a.round == 1 {
      if demands == [] {
        assert Quantities(demands) == [];
      } else {
        assert DemandCheck(s, a, limit, demands, 0) == Success;
      }
    } else {
      forall i | 0 <= i < |demands|
        ensures var t := Position(s.TerritoryIds(), demands[i].territoryId);
                a.posted[a.round - 1][t] <= demands[i].price <= a.clock[a.round][t]
      {
        assert DemandCheck(s, a, limit, demands, i) == Success;
      }
    }
  }

  function StoreBid(s: Setup, a: State, b: nat, bid: Bid): State
    requires a.round < |a.bids| && b < |a.bids[a.round]|
  {
    a.(bids := a.bids[a.round := a.bids[a.round][b := bid]])
  }

  // ----- evaluation -----

  function FilledRow(s: Setup, row: seq<Bid>, auctionId: nat, round: nat, fallback: seq<real>): (r: seq<Bid>)
    requires |fallback| == s.TerritoryCount()
    ensures |r| == |row|
    ensures forall b :: 0 <= b < |r| ==> r[b].auctionId == auctionId && r[b].round == round
  {
    seq(|row|, b requires 0 <= b < |row| =>
      Bid(auctionId, round, FilledDemands(s, row[b].demands, fallback)))
  }

  predicate CanEvaluate(s: Setup, a: State) {
    && Rows(s, a, a.round)
    && |a.bids| == a.round + 1
    && Conservation(s, a) && |a.excess| == a.round
  }

  function FillMissing(s: Setup, a: State, auctionId: nat): (a': State)
    requires CanEvaluate(s, a)
    ensures CanEvaluate(s, a')
  {
    a.(bids := a.bids[a.round := FilledRow(s, a.bids[a.round], auctionId, a.round, a.posted[a.round - 1])])
  }

  function Targets(s: Setup, a: State, k: nat): (m: seq<seq<Demand>>)
    requires 1 <= k < |a.bids| && k <= |a.posted| && |a.posted[k - 1]| == s.TerritoryCount()
    requires |a.bids[k]| == s.BidderCount()
    ensures Rectangular(m, s.BidderCount(), s.TerritoryCount())
  {
    seq(s.BidderCount(), b requires 0 <= b < s.BidderCount() =>
      TargetRow(s, a.bids[k][b].demands, a.posted[k - 1]))
  }

  function QuantityTable(targets: seq<seq<Demand>>): Table {
    seq(|targets|, b requires 0 <= b < |targets| => Quantities(targets[b]))
  }

  /** Round 1: every demand is granted, at the initial prices. */
  function InitialRound(s: Setup, a: State): State
    requires CanEvaluate(s, a) && a.round == 1
  {
    a.(licences := a.licences[..1] + [QuantityTable(Targets(s, a, 1))],
       posted := a.posted[..1] + [s.InitialPrices()])
  }

  function ContextOf(s: Setup, a: State): Context
    requires CanEvaluate(s, a) && a.round > 1
  {
    Context(s.Supply(), a.eligibility[a.round], a.licences[a.round - 1], a.excess[a.round - 1],
            a.posted[a.round - 1], a.clock[a.round], Targets(s, a, a.round))
  }

  function PresetPrices(c: Context): (p: seq<real>)
    requires |c.excess0| == |c.clock| == |c.posted0|
    ensures |p| == |c.posted0|
  {
    seq(|c.posted0|, t requires 0 <= t < |c.posted0| => if c.excess0[t] > 0 then c.clock[t] else c.posted0[t])
  }

  /** Eligibility left when the round opens; the subtraction must not underflow. */
  function EligibilityCaps(eligibility: seq<nat>, held: Table): (caps: seq<nat>)
    requires |eligibility| == |held|
    requires forall b :: 0 <= b < |held| ==> Sum(held[b]) <= eligibility[b]
    ensures |caps| == |held|
  {
    seq(|held|, b requires 0 <= b < |held| => eligibility[b] - Sum(held[b]))
  }

  predicate CanSettle(s: Setup, a: State) {
    && CanEvaluate(s, a) && a.round > 1
    && forall b :: 0 <= b < s.BidderCount() ==> Sum(a.licences[a.round - 1][b]) <= a.eligibility[a.round][b]
  }

  function OpeningBoard(s: Setup, a: State): Board
    requires CanSettle(s, a)
  {
    var c := ContextOf(s, a);
    Board(c.held0, c.excess0, EligibilityCaps(c.eligibility, c.held0), PresetPrices(c))
  }

  /** A later round: the queue of changed demands is settled by the bid-processing rule. */
  ghost function RegularRound(s: Setup, a: State, queue: seq<QueuedBid>): State
    requires CanSettle(s, a) && Live(ContextOf(s, a), OpeningBoard(s, a), queue)
  {
    var f := Settle(ContextOf(s, a), OpeningBoard(s, a), queue).board;
    a.(posted := a.posted + [f.posted], licences := a.licences + [f.held], excess := a.excess + [f.excess])
  }

  /** The activity that keeps a bidder's eligibility, in 32-bit arithmetic. */
  function RequiredActivity(eligibility: nat, percent: nat): nat {
    eligibility * percent % WORD / 100
  }

  lemma RequiredBounds(product: nat, activity: nat)
    requires activity < product % WORD / 100
    ensures activity * 100 < product && activity * 100 < WORD
  {
  }

  lemma {:induction false} MulOrder(x: nat, y: nat, m: nat)
    requires x <= y
    ensures x * m <= y * m
  {
    if x < y {
      MulOrder(x, y - 1, m);
      assert y * m == (y - 1) * m + m;
    }
  }

  lemma QuotientBounds(q: nat, r: nat, m: nat, low: nat, high: nat)
    requires r < m && low * m <= q * m + r <= high * m
    ensures low <= q <= high
  {
    if q + 1 <= low {
      MulOrder(q + 1, low, m);
    }
    if high + 1 <= q {
      MulOrder(high + 1, q, m);
    }
  }

  lemma Division(x: nat, m: nat)
    requires m > 0
    ensures x == x / m * m + x % m && x % m < m
  {
  }

  lemma Scaled(activity: nat, percent: nat)
    requires percent <= 100
    ensures activity * percent <= activity * 100
  {
    MulOrder(percent, 100, activity);
  }

  lemma QuotientWithin(x: nat, percent: nat, low: nat, high: nat)
    requires percent > 0 && low * percent <= x <= high * percent
    ensures low <= x / percent <= high
  {
    Division(x, percent);
    QuotientBounds(x / percent, x % percent, percent, low, high);
  }

  lemma ActivityArithmetic(eligibility: nat, activity: nat, percent: nat)
    requires percent <= 100 && activity < RequiredActivity(eligibility, percent)
    ensures percent > 0 && activity * 100 % WORD == activity * 100
    ensures activity <= activity * 100 / percent <= eligibility
  {
    var product := eligibility * percent;
    RequiredBounds(product, activity);
    assert percent == 0 ==> product == 0;
    Scaled(activity, percent);
    QuotientWithin(activity * 100, percent, activity, eligibility);
  }

  /**
   * The activity rule: a bidder that is active enough keeps its eligibility; otherwise the next eligibility is the
   * greatest number of which the required percentage is within its activity. The required product is taken in 32 bits.
   */
  predicate ActivityRule(eligibility: nat, activity: nat, percent: nat, next: nat) {
    if eligibility * percent % WORD < (activity + 1) * 100 then next == eligibility
    else next * percent <= activity * 100 < (next + 1) * percent
  }

  lemma NextIsGreatest(activity: nat, percent: nat)
    requires percent > 0
    ensures var n := activity * 100 / percent; n * percent <= activity * 100 < (n + 1) * percent
  {
    Division(activity * 100, percent);
  }

  /** The activity rule for one bidder: the division is never by zero and never wraps. */
  function NextEligibility(eligibility: nat, activity: nat, percent: nat): (n: nat)
    requires percent <= 100
    ensures ActivityRule(eligibility, activity, percent, n)
    ensures activity <= eligibility ==> activity <= n <= eligibility
  {
    if activity >= RequiredActivity(eligibility, percent) then eligibility
    else
      ActivityArithmetic(eligibility, activity, percent);
      NextIsGreatest(activity, percent);
      activity * 100 % WORD / percent
  }

  function NextEligibilities(s: Setup, eligibility: seq<nat>, licences: Table): (e: seq<nat>)
    requires s.activityPercent <= 100 && |eligibility| == |licences|
    ensures |e| == |eligibility|
  {
    seq(|eligibility|, b requires 0 <= b < |eligibility| =>
      NextEligibility(eligibility[b], Sum(licences[b]), s.activityPercent))
  }

  predicate FailsFinalStage(s: Setup, excess: seq<int>)
    requires |excess| == s.TerritoryCount()
  {
    exists t :: 0 <= t < |excess| && excess[t] < 0 && s.territories[t].highDemand
  }

  predicate NoExcess(excess: seq<int>) {
    forall t :: 0 <= t < |excess| ==> excess[t] <= 0
  }

  predicate CanConclude(s: Setup, a: State) {
    && Rows(s, a, a.round + 1)
    && s.activityPercent <= 100
    && a.round <= |a.excess| <= a.round + 1
  }

  /** Excess demand, final stage rule, and either the next round, the assignment phase or failure. */
  function Conclude(s: Setup, a: State): (State, Code)
    requires CanConclude(s, a)
  {
    var r, licences := a.round, a.licences[a.round];
    var excess := ExcessOf(s, licences);
    if |a.excess| > r && a.excess[r] != excess then (a, EvaluationError)
    else
      var a1 := if |a.excess| == r then a.(excess := a.excess + [excess]) else a;
      if FailsFinalStage(s, excess) then (a1.(phase := FsrFailed), Success)
      else if !a1.phase.ClockPhase? then (a1, Success)
      else if NoExcess(excess) then (a1.(phase := AssignmentPhase), Success)
      else
        (a1.(eligibility := a1.eligibility + [NextEligibilities(s, a1.eligibility[r], licences)],
             clock := a1.clock + [Raised(s, a1.posted[r])],
             round := r + 1), Success)
  }

  // ----- ending a round -----

  /** The queue holds exactly one bid for each changed demand of the filled-in bids. */
  ghost predicate QueueReady(s: Setup, a: State, queue: seq<QueuedBid>) {
    a.round > 1 ==> CanSettle(s, a) && Live(ContextOf(s, a), OpeningBoard(s, a), queue)
  }

  /** The licences, prices and excess demand of the current round, before it is concluded. */
  ghost function Process(s: Setup, a: State, queue: seq<QueuedBid>): State
    requires CanEvaluate(s, a) && QueueReady(s, a, queue)
  {
    if a.round == 1 then InitialRound(s, a) else RegularRound(s, a, queue)
  }

  predicate DrawsFor(s: Setup, draws: seq<seq<nat>>) {
    && |draws| == s.TerritoryCount()
    && forall t :: 0 <= t < |draws| ==> |draws[t]| == s.Supply()[t]
  }

  predicate CanAssign(s: Setup, a: State) {
    && Rows(s, a, a.round + 1)
    && NoExcess(ExcessOf(s, a.licences[a.round]))
  }

  function WinnersOf(s: Setup, a: State, draws: seq<nat>, t: nat): (row: seq<int>)
    requires CanAssign(s, a) && t < s.TerritoryCount() && |draws| == s.Supply()[t]
    ensures |row| == s.Supply()[t] && Fair(row, Column(a.licences[a.round], t))
  {
    assert ExcessOf(s, a.licences[a.round])[t] <= 0;
    Owners(ShuffleFrom(Indexes(s.Supply()[t]), 0, draws), Column(a.licences[a.round], t))
  }

  function PricesOf(s: Setup, a: State, t: nat): (row: seq<real>)
    requires Rows(s, a, a.round + 1) && t < s.TerritoryCount()
    ensures |row| == s.Supply()[t]
  {
    var channels := s.territories[t].channels;
    seq(|channels|, c requires 0 <= c < |channels| => ChannelPrice(a.posted[a.round][t], channels[c].impairment))
  }

  function AssignmentRound(s: Setup, a: State, draws: seq<seq<nat>>): State
    requires CanAssign(s, a) && DrawsFor(s, draws)
  {
    var T := s.TerritoryCount();
    a.(winAssign := seq(T, t requires 0 <= t < T => WinnersOf(s, a, draws[t], t)),
       assignCost := seq(T, t => seq(s.BidderCount(), _ => 0.0)),
       channelPrice := seq(T, t requires 0 <= t < T => PricesOf(s, a, t)),
       phase := Closed)
  }
}
