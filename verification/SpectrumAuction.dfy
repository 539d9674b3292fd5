/** The requests of the auction chaincode that change its state (demo/chaincode/fpc/spectrum-auction.cpp). */
module SpectrumAuction {
  import opened Basics
  import opened AuctionSetup
  import opened BidLoop
  import opened Bids
  import opened BidQueue
  import opened Enqueue
  import A = Auction
  import opened AuctionRuns
  import opened DynamicState
  import opened Lookups

  class SpectrumAuctionService {
    const setup: Setup
    const owner: Principal
    const state: DynamicAuctionState

    ghost predicate Valid()
      reads state
    {
      AtRest(setup, state.View())
    }

    constructor (s: Setup, submitter: Principal)
      requires WellFormed(s)
      ensures Valid() && fresh(state)
      ensures setup == s && owner == submitter && state.View() == A.Initialize(s)
    {
      setup, owner := s, submitter;
      state := new DynamicAuctionState(s);
      InitializeInv(s);
    }

    method StartNextRound(who: Principal) returns (code: A.Code)
      requires Valid()
      modifies state
      ensures Valid()
      ensures Step(setup, owner, old(state.View()), Request.StartNextRound(who), state.View(), code)
    {
      if state.active {
        return A.RoundIsActive;
      }
      if !state.phase.ClockPhase? && !state.phase.AssignmentPhase? {
        return A.RestrictedAuctionState;
      }
      if who != owner {
        return A.UnrecognizedSubmitter;
      }
      StartRoundInv(setup, state.View());
      hide Inv;
      state.StartRound(setup);
      code := A.Success;
    }

    method SubmitClockBid(who: Principal, bid: Bid) returns (code: A.Code)
      requires Valid()
      modifies state
      ensures Valid()
      ensures Step(setup, owner, old(state.View()), Request.SubmitClockBid(who, bid), state.View(), code)
    {
      if !state.phase.ClockPhase? {
        return A.NotInClockPhase;
      }
      var id := FromPrincipalToBidderId(setup, who);
      if id == 0 {
        return A.UnrecognizedSubmitter;
      }
      code := state.IsValidBid(setup, who, bid);
      if code == A.Success {
        StoreBidInv(setup, state.View(), who, bid);
        hide Opened, Evaluated, StoredBids, A.Conservation;
        state.StoreBid(setup, who, bid);
      }
    }

    /**
     * End the active round and evaluate it. When the clock phase is complete the assignment phase is started,
     * ended and evaluated at once.
     */
    method EndRound(who: Principal, auctionId: nat, random: Oracle, undefinedPoint: Oracle, draws: seq<seq<nat>>)
      returns (code: A.Code, ghost queue: seq<QueuedBid>)
      requires Valid() && A.DrawsFor(setup, draws)
      modifies state
      ensures Valid() && Prioritised(queue, old(state.View()), random)
      ensures Step(setup, owner, old(state.View()), Request.EndRound(who, auctionId, queue, draws), state.View(), code)
    {
      queue := [];
      var phase := state.phase;
      if !state.active {
        return A.RoundNotActive, queue;
      }
      if !phase.ClockPhase? && !phase.AssignmentPhase? {
        return A.RestrictedAuctionState, queue;
      }
      if who != owner {
        return A.UnrecognizedSubmitter, queue;
      }
      code, queue := Evaluate(auctionId, random, undefinedPoint, draws);
    }

    /** Fill in and process the bids of the round that has just been ended. */
    method ProcessBids(auctionId: nat, random: Oracle, undefinedPoint: Oracle) returns (ghost queue: seq<QueuedBid>)
      requires Evaluable(setup, state.View())
      modifies state
      ensures Prioritised(queue, old(state.View()), random)
      ensures var f := A.FillMissing(setup, old(state.View()), auctionId);
              A.QueueReady(setup, f, queue) && state.View() == A.Process(setup, f, queue)
    {
      queue := [];
      if state.round == 1 {
        state.ProcessInitialRoundBids(setup, auctionId);
      } else {
        queue := state.ProcessRegularRoundBids(setup, auctionId, random, undefinedPoint);
      }
    }

    /** Conclude the round and, when the clock phase is complete, assign the channels. */
    method ConcludeRound(draws: seq<seq<nat>>) returns (code: A.Code)
      requires Processed(setup, state.View()) && A.DrawsFor(setup, draws)
      modifies state
      ensures (state.View(), code) == Finish(setup, old(state.View()), draws)
    {
      ghost var p := state.View();
      ConcludeInv(setup, p);
      assert setup.TerritoryCount() > 0;
      hide Processed, History, WellFormed, Assigned;
      code := state.ProcessBidsPostamble(setup);
      if state.phase.AssignmentPhase? {
        state.StartRound(setup);
        state.EndRound();
        state.ProcessAssignmentRound(setup, draws);
      }
    }

    method Evaluate(auctionId: nat, random: Oracle, undefinedPoint: Oracle, draws: seq<seq<nat>>)
      returns (code: A.Code, ghost queue: seq<QueuedBid>)
      requires Valid() && state.phase.ClockPhase? && state.active && A.DrawsFor(setup, draws)
      modifies state
      ensures Valid() && Prioritised(queue, old(state.View()), random)
      ensures A.QueueReady(setup, Submitted(setup, old(state.View()), auctionId), queue)
      ensures (state.View(), code) == Ended(setup, old(state.View()), auctionId, queue, draws)
    {
      ghost var a := state.View();
      ActiveIsEvaluable(setup, a, auctionId);
      state.EndRound();
      queue := ProcessBids(auctionId, random, undefinedPoint);
      EndedPriority(a, queue, random);
      EndedProcessed(setup, a, auctionId, queue);
      hide Inv, Evaluable, Processed, Prioritised, A.FillMissing, A.Process, Finish;
      code := ConcludeRound(draws);
      EndedInv(setup, a, auctionId, queue, draws);
    }
  }
}
