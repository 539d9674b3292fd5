/** What the invariant means to a participant, for every run of requests and every state it reaches. */
module AuctionGuarantees {
  import opened Tally
  import opened Basics
  import opened AuctionSetup
  import opened BidLoop
  import opened Bids
  import opened Assignment
  import opened Auction
  import opened AuctionRuns

  /**
   * A run: the created auction, then one state for each request made to it. A request is only given a
   * meaning in states at rest; that every state of a run is at rest is what RunInv proves.
   */
  ghost predicate Run(s: Setup, owner: Principal, requests: seq<Request>, codes: seq<Code>, trace: seq<State>)
    requires WellFormed(s)
  {
    && |trace| == |requests| + 1 == |codes| + 1
    && trace[0] == Initialize(s)
    && forall i :: 0 <= i < |requests| ==>
         AtRest(s, trace[i]) ==> Step(s, owner, trace[i], requests[i], trace[i + 1], codes[i])
  }

  /** The rows of past rounds are never rewritten. */
  predicate Extends(a: State, a': State) {
    && a.licences <= a'.licences && a.excess <= a'.excess
    && a.clock <= a'.clock && a.eligibility <= a'.eligibility
    && a.round <= a'.round
  }

  /** Every state of every run keeps the invariant; no request ends in an evaluation error. */
  lemma {:induction false} RunInv(s: Setup, owner: Principal, requests: seq<Request>, codes: seq<Code>,
                                  trace: seq<State>, i: nat)
    requires WellFormed(s) && Run(s, owner, requests, codes, trace) && i < |trace|
    ensures AtRest(s, trace[i])
    ensures i < |codes| ==> codes[i] != EvaluationError
  {
    hide Inv, Step;
    if i == 0 {
      InitializeInv(s);
      assert AtRest(s, trace[0]);
    } else {
      RunInv(s, owner, requests, codes, trace, i - 1);
      StepInv(s, owner, trace[i - 1], requests[i - 1], trace[i], codes[i - 1]);
    }
    if i < |codes| {
      assert AtRest(s, trace[i]);
      StepInv(s, owner, trace[i], requests[i], trace[i + 1], codes[i]);
    }
  }

  lemma EndedExtends(s: Setup, a: State, auctionId: nat, queue: seq<QueuedBid>, draws: seq<seq<nat>>)
    requires Inv(s, a) && a.phase.ClockPhase? && a.active
    requires QueueReady(s, Submitted(s, a, auctionId), queue) && DrawsFor(s, draws)
    ensures Extends(a, Ended(s, a, auctionId, queue, draws).0)
  {
    hide History, Assigned, WellFormed, FilledRow, Live, Settle, QueueInv, NextEligibilities, Raised, ExcessOf;
    EndedProcessed(s, a, auctionId, queue);
    ConcludeInv(s, Process(s, Submitted(s, a, auctionId), queue));
  }

  lemma StepExtends(s: Setup, owner: Principal, a: State, r: Request, a': State, code: Code)
    requires Inv(s, a) && Step(s, owner, a, r, a', code)
    ensures Extends(a, a')
  {
    hide Inv, Ended, QueueReady, Submitted;
    if r.EndRound? && a.active && a.phase.ClockPhase? && r.who == owner {
      EndedExtends(s, a, r.auctionId, r.queue, r.draws);
    }
  }

  /** A later state of a run only adds rounds to an earlier one. */
  lemma {:induction false} RunAppendsOnly(s: Setup, owner: Principal, requests: seq<Request>, codes: seq<Code>,
                                          trace: seq<State>, i: nat, j: nat)
    requires WellFormed(s) && Run(s, owner, requests, codes, trace) && i <= j < |trace|
    ensures Extends(trace[i], trace[j])
  {
    hide Inv, Step;
    if i < j {
      RunInv(s, owner, requests, codes, trace, j - 1);
      RunAppendsOnly(s, owner, requests, codes, trace, i, j - 1);
      StepExtends(s, owner, trace[j - 1], requests[j - 1], trace[j], codes[j - 1]);
    }
  }

  /** Excess demand always equals licences held minus supply. */
  lemma ExcessIsDemandMinusSupply(s: Setup, a: State, k: nat, t: nat)
    requires AtRest(s, a) && 1 <= k < |a.excess| && t < s.TerritoryCount()
    ensures Rectangular(a.licences[k], s.BidderCount(), s.TerritoryCount())
    ensures |a.excess[k]| == s.TerritoryCount()
    ensures a.excess[k][t] == Sum(Column(a.licences[k], t)) - s.Supply()[t]
  {
    hide Opened, Evaluated;
  }

  /** Eligibility never rises and always covers the licences held. */
  lemma EligibilityShrinks(s: Setup, a: State, k: nat, b: nat)
    requires AtRest(s, a) && 2 <= k <= a.round && b < s.BidderCount()
    ensures |a.licences[k - 1]| == |a.eligibility[k]| == |a.eligibility[k - 1]| == s.BidderCount()
    ensures Sum(a.licences[k - 1][b]) <= a.eligibility[k][b] <= a.eligibility[k - 1][b]
  {
    assert Opened(s, a, k);
    hide Evaluated, Conservation, FailsFinalStage, ExcessOf;
  }

  /** Posted prices never fall, never exceed the clock price, and are bounded by compounded increments. */
  lemma PricesClimb(s: Setup, a: State, k: nat, t: nat)
    requires AtRest(s, a) && 1 <= k < |a.licences| && t < s.TerritoryCount()
    ensures |a.posted[k - 1]| == |a.posted[k]| == |a.clock[k]| == s.TerritoryCount()
    ensures a.posted[k - 1][t] <= a.posted[k][t] <= a.clock[k][t]
    ensures a.posted[k][t] <= s.territories[t].minPrice * Growth(s, k - 1)
  {
    assert Evaluated(s, a, k);
    hide Opened, Conservation, DemandsAnswered, MarketStep, Affordable;
  }

  /** Demand of a territory that was met stays met, and remaining excess demand is priced at the clock. */
  lemma ExcessHasAFloor(s: Setup, a: State, k: nat, t: nat)
    requires AtRest(s, a) && 2 <= k < |a.licences| && t < s.TerritoryCount()
    ensures |a.excess[k]| == |a.excess[k - 1]| == |a.posted[k]| == |a.clock[k]| == s.TerritoryCount()
    ensures a.excess[k][t] >= Min(0, a.excess[k - 1][t])
    ensures a.excess[k - 1][t] >= 0 && a.excess[k][t] > 0 ==> a.posted[k][t] == a.clock[k][t]
  {
    assert Evaluated(s, a, k);
    hide Opened, DemandsAnswered, PriceStep, Affordable;
  }

  /** The final stage rule can fail in round 1 only. */
  lemma OnlyRoundOneFails(s: Setup, a: State)
    requires AtRest(s, a) && a.phase.FsrFailed?
    ensures a.round == 1
    ensures exists t :: 0 <= t < s.TerritoryCount() && s.territories[t].highDemand &&
                        t < |a.excess[1]| && a.excess[1][t] < 0
  {
    hide Opened, Evaluated;
  }

  /** Every counter of the evaluation fits the 32-bit field it is stored in, if all bidders' supply does. */
  lemma CountersFit(s: Setup, a: State, k: nat, b: nat, t: nat)
    requires AtRest(s, a) && 1 <= k < |a.licences| && b < s.BidderCount() && t < s.TerritoryCount()
    requires s.BidderCount() * s.Supply()[t] < WORD / 2
    ensures Rectangular(a.licences[k], s.BidderCount(), s.TerritoryCount())
    ensures a.licences[k][b][t] <= s.Supply()[t]
    ensures Sum(Column(a.licences[k], t)) < WORD / 2
    ensures -(s.Supply()[t] as int) <= ExcessOf(s, a.licences[k])[t] < WORD / 2
  {
    assert Evaluated(s, a, k);
    hide Opened, DemandsAnswered, PriceStep, MarketStep, Conservation;
    ColumnBound(Column(a.licences[k], t), s.Supply()[t]);
  }

  lemma {:induction false} ColumnBound(column: seq<nat>, m: nat)
    requires forall b :: 0 <= b < |column| ==> column[b] <= m
    ensures Sum(column) <= |column| * m
  {
    if column != [] {
      ColumnBound(column[1..], m);
      assert |column| * m == (|column| - 1) * m + m;
    }
  }

  /**
   * A closed auction: each bidder owns exactly as many channels of a territory as it has licences there,
   * and a high-demand territory has no unassigned channel.
   */
  lemma ClosedAuctionIsFair(s: Setup, a: State, b: nat, t: nat)
    requires AtRest(s, a) && a.phase.Closed? && b < s.BidderCount() && t < s.TerritoryCount()
    ensures |a.winAssign| == s.TerritoryCount() && |a.winAssign[t]| == s.Supply()[t]
    ensures Count(a.winAssign[t], b) == a.licences[a.round][b][t]
    ensures forall c :: 0 <= c < |a.winAssign[t]| ==> UNASSIGNED <= a.winAssign[t][c] < s.BidderCount()
    ensures s.territories[t].highDemand ==> forall c :: 0 <= c < |a.winAssign[t]| ==> a.winAssign[t][c] != UNASSIGNED
  {
    hide Opened, Evaluated;
    var row, column := a.winAssign[t], Column(a.licences[a.round], t);
    assert Fair(row, column);
    assert Count(row, b) == column[b];
    if s.territories[t].highDemand {
      assert a.excess[a.round][t] == 0;
      FullyAssigned(row, column);
    }
  }

  /** A channel of a closed auction costs its territory's last posted price less its impairment, and nothing more. */
  lemma ClosedPricesAreFair(s: Setup, a: State, t: nat, c: nat)
    requires AtRest(s, a) && a.phase.Closed? && t < s.TerritoryCount() && c < s.Supply()[t]
    ensures |a.channelPrice| == s.TerritoryCount() && |a.channelPrice[t]| == s.Supply()[t]
    ensures |a.posted[a.round]| == s.TerritoryCount()
    ensures 0.0 <= a.channelPrice[t][c] <= a.posted[a.round][t]
    ensures a.channelPrice[t][c] * 100.0 ==
            a.posted[a.round][t] * (100 - s.territories[t].channels[c].impairment) as real
    ensures |a.assignCost| == s.TerritoryCount() && |a.assignCost[t]| == s.BidderCount()
    ensures forall b :: 0 <= b < s.BidderCount() ==> a.assignCost[t][b] == 0.0
  {
    assert Opened(s, a, a.round);
    assert Evaluated(s, a, a.round);
    hide Opened, DemandsAnswered, MarketStep, Conservation, Fair;
  }

  /** What every evaluated round k of a state promises for every bidder and territory. */
  ghost predicate RoundPromise(s: Setup, a: State, k: nat, b: nat, t: nat)
    requires b < s.BidderCount() && t < s.TerritoryCount() && 1 <= k < |a.licences|
  {
    && k < |a.posted| && k < |a.clock| && k < |a.eligibility|
    && Rectangular(a.licences[k], s.BidderCount(), s.TerritoryCount())
    && |a.posted[k - 1]| == |a.posted[k]| == |a.clock[k]| == s.TerritoryCount()
    && |a.eligibility[k]| == s.BidderCount()
    && (k < |a.excess| ==>
          |a.excess[k]| == s.TerritoryCount() && a.excess[k][t] == Sum(Column(a.licences[k], t)) - s.Supply()[t])
    && a.posted[k - 1][t] <= a.posted[k][t] <= a.clock[k][t]
    && a.posted[k][t] <= s.territories[t].minPrice * Growth(s, k - 1)
    && Sum(a.licences[k][b]) <= a.eligibility[k][b]
  }

  lemma EvaluatedRoundKeepsPromise(s: Setup, a: State, k: nat, b: nat, t: nat)
    requires AtRest(s, a) && 1 <= k < |a.licences| && b < s.BidderCount() && t < s.TerritoryCount()
    ensures RoundPromise(s, a, k, b, t)
  {
    assert Evaluated(s, a, k);
    PricesClimb(s, a, k, t);
    if k < |a.excess| {
      ExcessIsDemandMinusSupply(s, a, k, t);
    }
    hide Opened, DemandsAnswered, MarketStep, PriceStep, Conservation;
  }

  /** In every run, for all random values, every state keeps the promise for all its evaluated rounds. */
  lemma EveryRunKeepsItsPromises(s: Setup, owner: Principal, requests: seq<Request>, codes: seq<Code>,
                                 trace: seq<State>, i: nat, k: nat, b: nat, t: nat)
    requires WellFormed(s) && Run(s, owner, requests, codes, trace) && i < |trace|
    requires b < s.BidderCount() && t < s.TerritoryCount() && 1 <= k < |trace[i].licences|
    ensures RoundPromise(s, trace[i], k, b, t)
  {
    hide Run, WellFormed, AtRest, RoundPromise;
    RunInv(s, owner, requests, codes, trace, i);
    EvaluatedRoundKeepsPromise(s, trace[i], k, b, t);
  }

  /**
   * In every run, for all random values: a failed auction failed in round 1, a closed one is fully and fairly assigned.
   */
  lemma EveryRunEndsWell(s: Setup, owner: Principal, requests: seq<Request>, codes: seq<Code>, trace: seq<State>,
                         i: nat, b: nat, t: nat)
    requires WellFormed(s) && Run(s, owner, requests, codes, trace) && i < |trace|
    requires b < s.BidderCount() && t < s.TerritoryCount()
    ensures trace[i].phase.FsrFailed? ==> trace[i].round == 1
    ensures trace[i].phase.Closed? ==>
              && |trace[i].winAssign| == s.TerritoryCount()
              && trace[i].round < |trace[i].licences|
              && Rectangular(trace[i].licences[trace[i].round], s.BidderCount(), s.TerritoryCount())
              && Count(trace[i].winAssign[t], b) == trace[i].licences[trace[i].round][b][t]
              && (s.territories[t].highDemand ==> UNASSIGNED !in trace[i].winAssign[t])
  {
    hide Run, WellFormed;
    RunInv(s, owner, requests, codes, trace, i);
    var a := trace[i];
    if a.phase.FsrFailed? {
      OnlyRoundOneFails(s, a);
    }
    if a.phase.Closed? {
      ClosedAuctionIsFair(s, a, b, t);
    }
    hide Opened, Evaluated, Assigned;
  }

  /**
   * How every later round of every state opens: the clock stands the increment above the posted price, eligibility
   * follows the activity rule, and some territory had excess demand while none in high demand was below supply.
   */
  lemma RoundsOpenExactly(s: Setup, a: State, k: nat, b: nat, t: nat)
    requires AtRest(s, a) && 2 <= k <= a.round && b < s.BidderCount() && t < s.TerritoryCount()
    ensures |a.posted[k - 1]| == |a.clock[k]| == s.TerritoryCount()
    ensures a.clock[k][t] * 100.0 == a.posted[k - 1][t] * (100 + s.incrementPercent) as real
    ensures |a.licences[k - 1]| == |a.eligibility[k]| == |a.eligibility[k - 1]| == s.BidderCount()
    ensures ActivityRule(a.eligibility[k - 1][b], Sum(a.licences[k - 1][b]), s.activityPercent, a.eligibility[k][b])
  {
    assert Opened(s, a, k);
    hide Evaluated, Conservation, FailsFinalStage, ExcessOf, ActivityRule;
    RaisedExactly(s, a.posted[k - 1], t);
  }
}
