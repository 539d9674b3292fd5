/** How rounds end in terms of demand and supply, and which bid counts (demo/chaincode/fpc/evaluate.cpp). */
module AuctionOutcomes {
  import opened Tally
  import opened Basics
  import opened AuctionSetup
  import opened BidLoop
  import opened Bids
  import opened Auction
  import opened AuctionRuns
  import opened AuctionGuarantees
  import opened AuctionLimits

  // ----- how a round ends -----

  /** A territory in high demand is demanded less often than it has channels. */
  predicate Neglected(s: Setup, licences: Table)
    requires Rectangular(licences, s.BidderCount(), s.TerritoryCount())
  {
    exists t :: 0 <= t < s.TerritoryCount() && s.territories[t].highDemand
                && Sum(Column(licences, t)) < |s.territories[t].channels|
  }

  /** A territory is demanded more often than it has channels. */
  predicate Contested(s: Setup, licences: Table)
    requires Rectangular(licences, s.BidderCount(), s.TerritoryCount())
  {
    exists t :: 0 <= t < s.TerritoryCount() && Sum(Column(licences, t)) > |s.territories[t].channels|
  }

  lemma DemandAgainstSupply(s: Setup, licences: Table)
    requires Rectangular(licences, s.BidderCount(), s.TerritoryCount())
    ensures FailsFinalStage(s, ExcessOf(s, licences)) <==> Neglected(s, licences)
    ensures NoExcess(ExcessOf(s, licences)) <==> !Contested(s, licences)
  {
    hide Sum;
    var excess := ExcessOf(s, licences);
    assert forall t :: 0 <= t < s.TerritoryCount() ==>
        excess[t] == Sum(Column(licences, t)) - |s.territories[t].channels|;
  }

  /**
   * A clock round is concluded in one of three ways: the auction fails if a territory in high demand is left over, it
   * goes on if some territory is contested, and it is over when demand is at most supply everywhere.
   */
  lemma ConcludeExactly(s: Setup, a: State)
    requires CanConclude(s, a) && a.phase.ClockPhase?
    requires |a.excess| > a.round ==> a.excess[a.round] == ExcessOf(s, a.licences[a.round])
    ensures var (a', code) := Conclude(s, a);
            var neglected, contested := Neglected(s, a.licences[a.round]), Contested(s, a.licences[a.round]);
            && code == Success
            && (a'.phase.FsrFailed? <==> neglected)
            && (a'.phase.ClockPhase? <==> !neglected && contested)
            && (a'.phase.AssignmentPhase? <==> !neglected && !contested)
            && a'.round == (if !neglected && contested then a.round + 1 else a.round)
  {
    DemandAgainstSupply(s, a.licences[a.round]);
    hide ExcessOf, FailsFinalStage, NoExcess, Neglected, Contested;
  }

  /** What the phase and the rounds of a state say about the demand that was found. */
  ghost predicate RoundsExplained(s: Setup, a: State)
    requires Rows(s, a, |a.licences|)
  {
    && (forall k :: 1 <= k < a.round ==> !Neglected(s, a.licences[k]) && Contested(s, a.licences[k]))
    && (a.phase.FsrFailed? ==> |a.licences| == 2 && Neglected(s, a.licences[1]))
    && (a.phase.Closed? ==>
          && |a.licences| == a.round + 1
          && !Neglected(s, a.licences[a.round]) && !Contested(s, a.licences[a.round]))
  }

  lemma PhasesExplained(s: Setup, a: State)
    requires AtRest(s, a)
    ensures Rows(s, a, |a.licences|) && RoundsExplained(s, a)
  {
    hide Evaluated, Assigned, StoredBids, ExcessOf, FailsFinalStage, NoExcess, Neglected, Contested, WellFormed;
    forall k | 1 <= k < |a.licences|
      ensures Rectangular(a.licences[k], s.BidderCount(), s.TerritoryCount())
      ensures FailsFinalStage(s, ExcessOf(s, a.licences[k])) <==> Neglected(s, a.licences[k])
      ensures NoExcess(ExcessOf(s, a.licences[k])) <==> !Contested(s, a.licences[k])
    {
      DemandAgainstSupply(s, a.licences[k]);
    }
    forall k | 1 <= k < a.round ensures !Neglected(s, a.licences[k]) && Contested(s, a.licences[k]) {
      assert Opened(s, a, k + 1);
    }
  }

  /**
   * In every run every round but the last was contested and left no territory in high demand over; the auction failed
   * because it did so in round 1, or is closed because nothing is contested any more.
   */
  lemma EveryRunIsExplained(s: Setup, owner: Principal, requests: seq<Request>, codes: seq<Code>, trace: seq<State>,
                            i: nat)
    requires WellFormed(s) && Run(s, owner, requests, codes, trace) && i < |trace|
    ensures Rows(s, trace[i], |trace[i].licences|) && RoundsExplained(s, trace[i])
  {
    hide Run, WellFormed, RoundsExplained, Inv;
    RunInv(s, owner, requests, codes, trace, i);
    PhasesExplained(s, trace[i]);
  }

  /** In every run every round opens at the raised prices and under the activity rule. */
  lemma EveryRunOpensExactly(s: Setup, owner: Principal, requests: seq<Request>, codes: seq<Code>, trace: seq<State>,
                             i: nat, k: nat, b: nat, t: nat)
    requires WellFormed(s) && Run(s, owner, requests, codes, trace) && i < |trace|
    requires 2 <= k <= trace[i].round && b < s.BidderCount() && t < s.TerritoryCount()
    ensures Rows(s, trace[i], |trace[i].licences|)
    ensures var a := trace[i];
            && a.clock[k][t] * 100.0 == a.posted[k - 1][t] * (100 + s.incrementPercent) as real
            && ActivityRule(a.eligibility[k - 1][b], Sum(a.licences[k - 1][b]), s.activityPercent, a.eligibility[k][b])
  {
    RunInv(s, owner, requests, codes, trace, i);
    hide Run, WellFormed, Opened, Evaluated, Conservation, ActivityRule;
    RoundsOpenExactly(s, trace[i], k, b, t);
  }

  // ----- who may do what -----

  /** What a bidder must meet for its bid to be accepted. */
  predicate MayBid(s: Setup, a: State, who: Principal, bid: Bid)
    requires Rows(s, a, |a.licences|) && Listed(s)
  {
    && a.phase.ClockPhase? && a.active && bid.round == a.round
    && SubmitterId(s.bidders, who) != 0
    && EligibilityNumber(s.eligibilities, SubmitterId(s.bidders, who)).Some?
    && Acceptable(s, a, EligibilityNumber(s.eligibilities, SubmitterId(s.bidders, who)).value, bid.demands)
  }

  predicate Permitted(s: Setup, owner: Principal, a: State, r: Request)
    requires Rows(s, a, |a.licences|) && Listed(s)
  {
    match r
    case StartNextRound(who) => a.phase.ClockPhase? && !a.active && who == owner
    case SubmitClockBid(who, bid) => MayBid(s, a, who, bid)
    case EndRound(who, _, _, _) => a.phase.ClockPhase? && a.active && who == owner
  }

  lemma BidPermitted(s: Setup, a: State, who: Principal, bid: Bid)
    requires AtRest(s, a) && a.phase.ClockPhase? && SubmitterId(s.bidders, who) != 0
    ensures BidCheck(s, a, who, bid) == Success <==> MayBid(s, a, who, bid)
  {
    SubmitterCovered(s, who);
    ChecksAreExact(s, a, EligibilityNumber(s.eligibilities, SubmitterId(s.bidders, who)).value, bid.demands);
    hide Rows, Conservation, Opened, Evaluated, StoredBids, Acceptable, DemandsCheck, SubmitterId, EligibilityNumber;
  }

  /**
   * A request succeeds exactly when it is permitted: rounds are opened and closed by the owner, in turn, while the
   * clock phase lasts, and bids come from bidders, for the open round, and are acceptable. A refused request changes
   * nothing.
   */
  lemma StepExactly(s: Setup, owner: Principal, a: State, r: Request, a': State, code: Code)
    requires AtRest(s, a) && Step(s, owner, a, r, a', code)
    ensures code == Success <==> Permitted(s, owner, a, r)
    ensures code != Success ==> a' == a
  {
    hide Inv, QueueReady, BidCheck, Ended, Submitted, Acceptable;
    if r.SubmitClockBid? && a.phase.ClockPhase? && SubmitterId(s.bidders, r.who) != 0 {
      BidPermitted(s, a, r.who, r.bid);
    }
    if r.EndRound? && a.active && a.phase.ClockPhase? && r.who == owner {
      EndedInv(s, a, r.auctionId, r.queue, r.draws);
    }
  }

  // ----- which bid counts -----

  /** The bid stored for bidder b in the current round, if the round has been started. */
  function CurrentBid(a: State, b: nat): Option<Bid> {
    if a.round < |a.bids| && b < |a.bids[a.round]| then Some(a.bids[a.round][b]) else None
  }

  /** A request that is refused, or a bid of another bidder. */
  predicate LeavesBid(s: Setup, b: nat, r: Request, code: Code) {
    code == Success ==> r.SubmitClockBid? && SubmitterIndex(s, r.who) != Some(b)
  }

  lemma StepLeavesBid(s: Setup, owner: Principal, a: State, r: Request, a': State, code: Code, b: nat)
    requires AtRest(s, a) && Step(s, owner, a, r, a', code) && LeavesBid(s, b, r, code)
    ensures a'.round == a.round && CurrentBid(a', b) == CurrentBid(a, b)
  {
    hide Inv, QueueReady, BidCheck, Ended, Submitted;
    if r.EndRound? && a.active && a.phase.ClockPhase? && r.who == owner {
      EndedInv(s, a, r.auctionId, r.queue, r.draws);
    }
  }

  /** An accepted bid is the submitter's current one, whatever was stored before. */
  lemma StepStoresBid(s: Setup, owner: Principal, a: State, r: Request, a': State, code: Code)
    requires AtRest(s, a) && Step(s, owner, a, r, a', code) && r.SubmitClockBid? && code == Success
    ensures SubmitterIndex(s, r.who).Some?
    ensures CurrentBid(a', SubmitterIndex(s, r.who).value) == Some(r.bid)
    ensures a'.round == a.round == r.bid.round
  {
    hide Inv;
  }

  /** The request j of a run is an accepted bid of bidder b, and until state i nothing else touches that bid. */
  ghost predicate LastAccepted(s: Setup, requests: seq<Request>, codes: seq<Code>, j: nat, i: nat, b: nat)
    requires |requests| == |codes| && j < i <= |requests|
  {
    && requests[j].SubmitClockBid? && codes[j] == Success && SubmitterIndex(s, requests[j].who) == Some(b)
    && forall k :: j < k < i ==> LeavesBid(s, b, requests[k], codes[k])
  }

  /** In every run the bid on record for a bidder is the last one that was accepted from it in the round. */
  lemma {:induction false} LastBidStands(s: Setup, owner: Principal, requests: seq<Request>, codes: seq<Code>,
                                         trace: seq<State>, j: nat, i: nat, b: nat)
    requires WellFormed(s) && Run(s, owner, requests, codes, trace) && j < i < |trace|
    requires LastAccepted(s, requests, codes, j, i, b)
    ensures trace[i].round == requests[j].bid.round
    ensures CurrentBid(trace[i], b) == Some(requests[j].bid)
  {
    hide Inv, Step, WellFormed, LeavesBid, CurrentBid;
    RunInv(s, owner, requests, codes, trace, i - 1);
    if i == j + 1 {
      StepStoresBid(s, owner, trace[j], requests[j], trace[i], codes[j]);
    } else {
      LastBidStands(s, owner, requests, codes, trace, j, i - 1, b);
      StepLeavesBid(s, owner, trace[i - 1], requests[i - 1], trace[i], codes[i - 1], b);
    }
  }
}
