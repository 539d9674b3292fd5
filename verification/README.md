# Fabric private chaincode: auction, trusted ledger and codecs

A Dafny model of three parts of a system that runs chaincode inside enclaves, and proofs about them.
`dafny verify dfyconfig.toml` checks everything.

**The spectrum clock auction.** Bidders demand licences in territories, round after round. A later round queues every
changed demand, sorts the queue by price point, and applies as much as possible of the first processable bid, starting
over after each application. Licences held, excess demand, eligibility and prices move together. The phase continues,
fails the final stage rule in round 1, or completes; then channels are dealt out at random.
`AuctionSetup`, `Bids`, `BidLoop`, `BidQueue`, `Enqueue`, `Assignment` and `Auction` define the operations on values;
`BidTurns` describes one turn of the bid-processing rule as a relation between boards and proves that the rule is the
only thing that satisfies it; `AuctionRuns` proves the invariant of every request; `AuctionGuarantees` and
`AuctionOutcomes` say what it means over whole runs; `AuctionLimits` and `AuctionPrices` give exact conditions,
`MisalignedAuction` and `UnsoldAuction` the inputs behind them; `DynamicState` and `SpectrumAuction` are the objects
with the loops of the program, each method proved to do what the functions say.

**The trusted ledger.** Blocks are accepted in sequence, transactions are checked against the versions they read, and
surviving writes are committed. `Ledger` specifies a delivery; `LedgerRuns` proves what holds over all deliveries,
`LedgerEffects` what one delivery answers and leaves under each key;
`Serializability` proves that accepted transactions act as if run one at a time, and `LedgerLimits` where that ends;
`TrustedLedger` is the object with its loops; `LedgerReaders` is a state machine of one feeder and any number of readers
that take the lock for small steps; `Queries` compares the bytes that two enclaves authenticate, `PeerState` the peer's
answers with the ledger's, and `RangeAnswer` their text; `Endorsement` and `CompositeKeys` compare the bytes an enclave
signs with those a validator rebuilds; `ByteOrder` and `ByteLayouts` say in which order the bytes stand.

**Codecs.** `Json`, `JsonRoundTrip`, `JsonGrammar`, `JsonNumbers`, `JsonForms`, `JsonUnicode`, `JsonWriter` and
`JsonParser` model the JSON library (RFC 8259, and RFC 3629 for the bytes of escaped characters); `Base64` the encoding
of section 4 of RFC 4648; `Storage` the length-prefixed, encrypted strings of the auction.

## Choices and hypotheses

- Prices are `real`, counts are `nat` or `int`. 32-bit wrap-around is written out where it can matter: sums of
  quantities, the activity product, block numbers and stored string lengths.
- Random values are parameters: every statement holds for all of them. Where clock price and posted price coincide the
  price point has no value in the program; an arbitrary one is taken. The safety results hold for any queue order; the
  objects produce the cheapest bids first.
- A setup is well-formed when the program's creation check accepts it and, beyond that check, territory ids are
  distinct, minimum prices are not negative, total supply is below 2^32, and what a bidder can demand in round 1 by the
  lookup of its id is within its eligibility by position. `AuctionLimits.BudgetIsExact` shows that this is the exact
  condition, `MisalignedAuction.EligibilityUnderflows` what the creation check lets through.
- Hashes, MACs and signatures are functions of byte strings. Encryption is a pair of functions with
  `open(seal(v)) == v` and 28 bytes of overhead. A number is its text. `strtod` is any function from texts to the number
  of characters consumed; the round trip asks, of the numbers in the value only, that it consumes the text of the number
  before what the printer puts after it. `JsonNumbers` shows that the longest decimal number does this for every printed
  number. (A text that makes `strtod` report a range error is not read back.)
- A transaction in the ledger is the list of actions that decode; one without results, or with a read conflict, has no
  effect. A block is abandoned when an envelope does not decode.
- Serializability is about transactions whose actions were simulated on a state of this ledger, write each key once, and
  write only keys they read. `LedgerLimits.FirstWinsExactly` is the exact condition without the last two of these.
- The peer's part of a transaction follows Hyperledger Fabric: each directly read key once, every range query with the
  keys it returned or without, the last value written to a key, and one set for the chaincode's namespace.
- JSON objects hold a name once, as the library's only way to add a member ensures; the printer looks values up by name.

## Where the program differs from what one would expect

- A bid's eligibility is looked up by id in round 1 and by position later; creation checks only the list lengths.
- The sort's comparator holds both ways for ties, and of a bid and itself.
- A demand increase that jumps over zero excess demand leaves the posted price below the clock price, unless excess
  demand returns to zero in the same round (`AuctionPrices`, `UnsoldAuction`).
- Block numbers are compared in 32 bits while versions keep 64.
- The ledger keeps the first write of a key in a block. A point read of a composite key is checked under the bare
  namespace key (`LedgerLimits`).
- A plain key with dots can fall under a range query in the ledger that the peer does not answer with it (`PeerState`).
- A range query whose keys the peer does not list is skipped by the validator but signed by the enclave
  (`Endorsement.UnlistedReadsDiffer`).
- For an absent key, and for a composite key read directly, the two enclaves authenticate different bytes.
- A length of ten digits is stored but refused on reading.
- A minus sign that starts no number is parsed as a number of no text, outside arrays and objects (`JsonNumbers`).

## Model

| member | source | states |
|---|---|---|
| `AuctionGuarantees.EveryRunEndsWell` | demo/chaincode/fpc/spectrum-auction.cpp:188-234 | in every run, for every choice of random values, an auction that failed the final stage rule failed in round 1, and in a closed auction each bidder owns exactly its licences in each territory and no channel of a high-demand territory is left over |
| `AuctionGuarantees.EveryRunKeepsItsPromises` | demo/chaincode/fpc/evaluate.cpp:13-34 | in every state of every run and for every evaluated round, bidder and territory: excess demand is demand minus supply, prices rise, stay below the clock price and below the compounded increments, and licences stay within eligibility |
| `AuctionGuarantees.RunInv` | demo/chaincode/fpc/spectrum-auction.cpp:93-269 | every state that any sequence of requests reaches is at rest and keeps the invariant, and no request ends in an evaluation error |
| `AuctionGuarantees.RunAppendsOnly` | demo/chaincode/fpc/evaluate.cpp:94-107 | a later state of a run has every licence, excess, clock and eligibility row of an earlier one, unchanged |
| `AuctionGuarantees.ExcessIsDemandMinusSupply` | demo/chaincode/fpc/evaluate.cpp:74-107 | stored excess demand of every evaluated round is the sum of licences over bidders minus supply |
| `AuctionGuarantees.EligibilityShrinks` | demo/chaincode/fpc/evaluate.cpp:134-157 | from round to round eligibility never rises and never falls below the licences held |
| `AuctionGuarantees.PricesClimb` | demo/chaincode/fpc/evaluate.cpp:159-193 | posted prices never fall, never exceed the clock price, and after k rounds are at most the minimum price compounded k - 1 times |
| `AuctionGuarantees.ExcessHasAFloor` | demo/chaincode/fpc/evaluate.cpp:296-326 | excess demand never drops below the smaller of zero and its last value; a territory that entered at or above zero and ends with excess demand is posted at the clock price |
| `AuctionGuarantees.OnlyRoundOneFails` | demo/chaincode/fpc/evaluate.cpp:109-120 | a failed final stage rule means round 1 and a high-demand territory with demand below supply |
| `AuctionGuarantees.CountersFit` | demo/chaincode/fpc/evaluate.cpp:75-91 | the demand counters fit their 32-bit fields when bidders times supply does |
| `AuctionGuarantees.ClosedAuctionIsFair` | demo/chaincode/fpc/evaluate.cpp:386-399 | a closed auction gives each bidder its licences, no channel to two bidders, and no unassigned channel where demand was high |
| `AuctionGuarantees.ClosedPricesAreFair` | demo/chaincode/fpc/evaluate.cpp:378-384 | 100 times the price of a channel is the last posted price times 100 minus its impairment; it lies between zero and the posted price, and assignment itself costs nothing |
| `AuctionRuns.InitializeInv` | demo/chaincode/fpc/auction-state.cpp:363-405 | a well-formed setup starts in the invariant, with the row counts of round 1 |
| `AuctionRuns.StartRoundInv` | demo/chaincode/fpc/auction-state.cpp:901-914 | starting a round keeps the invariant |
| `AuctionRuns.StoreBidInv` | demo/chaincode/fpc/auction-state.cpp:1018-1023 | storing a checked bid keeps the invariant, also when it replaces an earlier one |
| `AuctionRuns.FillMissingInv` | demo/chaincode/fpc/auction-state.cpp:1025-1051 | filling in the missing demands of accepted or empty bids keeps them within supply, eligibility and prices |
| `AuctionRuns.InitialRoundEvaluated` | demo/chaincode/fpc/evaluate.cpp:42-70 | granting every demand of round 1 satisfies what an evaluated round promises |
| `AuctionRuns.ContextReady` | demo/chaincode/fpc/evaluate.cpp:180-252 | the board from which a later round starts satisfies every loop invariant, so the eligibility subtraction cannot underflow |
| `AuctionRuns.SettledRow` | demo/chaincode/fpc/evaluate.cpp:254-337 | the board on which the loop ends satisfies what an evaluated round promises |
| `AuctionRuns.FinalStageRuleHolds` | demo/chaincode/fpc/evaluate.cpp:109-120 | no processed round after the first fails the final stage rule |
| `AuctionRuns.ConcludeInv` | demo/chaincode/fpc/evaluate.cpp:72-172 | concluding a round never takes the error branch and keeps the invariant, whether the phase goes on, fails or completes |
| `AuctionRuns.AssignmentRoundInv` | demo/chaincode/fpc/evaluate.cpp:340-400 | assignment after a completed clock phase never overruns the shuffled list and keeps the invariant |
| `AuctionRuns.EndedInv` | demo/chaincode/fpc/spectrum-auction.cpp:205-225 | ending a round, evaluating it and short-circuiting the assignment phase succeeds and leads back to a state at rest |
| `AuctionRuns.StepInv` | demo/chaincode/fpc/spectrum-auction.cpp:160-269 | each request, accepted or refused, keeps the invariant, never ends in an evaluation error, and can fail the final stage rule in round 1 only |
| `AuctionLimits.ChecksAreExact` | demo/chaincode/fpc/auction-state.cpp:971-1003 | the loop of bid checks accepts exactly the acceptable demand lists |
| `AuctionLimits.BudgetIsExact` | demo/chaincode/fpc/auction-state.cpp:988-995 | the round 1 check by bidder id keeps every accepted bid within a share if and only if the limit, or the whole supply, is within that share |
| `MisalignedAuction.EligibilityUnderflows` | demo/chaincode/fpc/evaluate.cpp:241-249 | a setup that passes the creation check, with eligibilities in another order than bidders: both bids are accepted, round 2 opens, and the licences held exceed the eligibility they are subtracted from |
| `AuctionPrices.MissesClockExactly` | demo/chaincode/fpc/evaluate.cpp:254-337 | a territory that enters a round below supply and ends it with excess demand is posted at the clock price exactly when its excess demand was zero on the way, or clock and last posted price coincide |
| `AuctionPrices.EndPriceExactly` | demo/chaincode/fpc/evaluate.cpp:284-325 | otherwise its price is the last posted one, and one step has jumped over zero, after which excess demand stayed positive |
| `AuctionPrices.TrailEnds` | demo/chaincode/fpc/evaluate.cpp:254-337 | the boards so followed are those of the bid-processing rule, up to its result |
| `UnsoldAuction.UnsoldTerritoryMissesClock` | demo/chaincode/fpc/evaluate.cpp:290-294 | a run of eight requests after which a territory has excess demand at last round's price, below the clock price |
| `AuctionSetup.AlignedIsCovered` | demo/chaincode/fpc/auction-state.cpp:301-330 | eligibilities listed in bidder order, with distinct ids, are the same by id and by position, so the setup is well covered |
| `Auction.BidCheckFits` | demo/chaincode/fpc/auction-state.cpp:963-1005 | an accepted bid names known territories once, stays within supply, and within eligibility in round 1 or between posted and clock price later |
| `Auction.ActivityArithmetic` | demo/chaincode/fpc/evaluate.cpp:138-156 | the next eligibility lies between licences held and the present eligibility, also when the 32-bit product wraps, and its division is never by zero |
| `Auction.NextEligibility` | demo/chaincode/fpc/evaluate.cpp:145-155 | a bidder whose activity reaches the required percentage keeps its eligibility; otherwise the next one is the greatest number of which that percentage is within the activity (the required product is taken in 32 bits); it never exceeds the present one and covers the licences held |
| `BidLoop.ApplyEffect` | demo/chaincode/fpc/evaluate.cpp:284-288 | one application changes one cell, one territory and one bidder's allowance, each by the same amount |
| `BidLoop.ApplyKeepsRoundInv` | demo/chaincode/fpc/evaluate.cpp:258-326 | conservation, eligibility budget, excess floor, price bounds and direction all survive one application |
| `BidLoop.ApplyKeepsQueueInv` | demo/chaincode/fpc/evaluate.cpp:328-336 | the queue keeps exactly one bid for each bidder and territory whose holding differs from its demand |
| `BidLoop.ApplyShortensDistance` | demo/chaincode/fpc/evaluate.cpp:254-337 | each application shortens the total distance between holdings and demands by its positive amount, so the loop terminates |
| `BidLoop.SettleOutcome` | demo/chaincode/fpc/evaluate.cpp:254-337 | applying the first processable bid until there is none keeps every invariant and ends at a fixed point |
| `BidLoop.SettledDemands` | demo/chaincode/fpc/evaluate.cpp:265-304 | at the end each demand is met, or it is an increase without eligibility left, or a decrease without excess demand |
| `AuctionOutcomes.EveryRunIsExplained` | demo/chaincode/fpc/evaluate.cpp:109-132 | in every state of every run each round before the current one was contested (demand above supply somewhere) and left no high-demand territory below supply; the auction failed because round 1 did, or is closed because demand is at most supply everywhere |
| `AuctionOutcomes.ConcludeExactly` | demo/chaincode/fpc/evaluate.cpp:109-172 | a clock round ends the auction in failure exactly when a high-demand territory is demanded less often than it has channels, goes on exactly when otherwise some territory is demanded more often, and leads to assignment exactly when demand meets or stays below supply everywhere |
| `AuctionOutcomes.EveryRunOpensExactly` | demo/chaincode/fpc/evaluate.cpp:134-166 | in every state of every run each round opened with clock prices that stand the increment above the posted ones and with the eligibility that the activity rule gives |
| `AuctionOutcomes.StepExactly` | demo/chaincode/fpc/spectrum-auction.cpp:160-269 | a request succeeds exactly when it is permitted: the owner opens and ends rounds in turn during the clock phase, and a bidder's bid for the open round is acceptable; a refused request changes nothing |
| `AuctionOutcomes.LastBidStands` | demo/chaincode/fpc/auction-state.cpp:1018-1023 | in every run the bid on record for a bidder is the last one accepted from it in the round |
| `AuctionGuarantees.RoundsOpenExactly` | demo/chaincode/fpc/evaluate.cpp:134-166 | the same for every state at rest: 100 times the clock price is the posted price times 100 plus the increment, and eligibility obeys the activity rule |
| `Auction.RaisedExactly` | demo/chaincode/fpc/evaluate.cpp:159-166 | a raised price stands exactly the increment above the price |
| `AuctionLimits.RefusalExactly` | demo/chaincode/fpc/auction-state.cpp:971-1003 | a bid is refused with a code exactly when its first faulty demand has the fault of that code and none that is looked for earlier; the faults are stated on territories, quantities and prices |
| `AuctionLimits.DemandCheckExactly` | demo/chaincode/fpc/auction-state.cpp:971-1003 | the check of one demand reports its first fault, and passes exactly a demand without faults |
| `AuctionLimits.BidRefusedExactly` | demo/chaincode/fpc/auction-state.cpp:963-970 | a bid is refused for its submitter, its round or an inactive round exactly when the submitter is unknown, or the round is another one, or the round is not active |
| `AuctionSetup.SubmitterExactly` | demo/chaincode/fpc/auction-state.cpp:260-270 | the first bidder with the principal decides the id, which is 0 exactly without one or when that bidder has it |
| `BidTurns.TurnIsUnique` | demo/chaincode/fpc/evaluate.cpp:254-337 | what a turn is, stated on holdings, excess demand, eligibility and prices before and after: from a board and a queue there is at most one |
| `BidTurns.ApplyIsTurn` | demo/chaincode/fpc/evaluate.cpp:258-337 | applying the first processable bid is a turn: licences, excess demand and eligibility move by what the bid wants as far as possible; the price becomes the clock price on leaving zero excess demand, the bid's price on coming down to zero, and stays otherwise; a bid that is met leaves the queue |
| `BidTurns.SettleIsChain` | demo/chaincode/fpc/evaluate.cpp:254-337 | the bid-processing rule is a chain of turns that ends when every queued bid is blocked |
| `BidTurns.EveryChainSettles` | demo/chaincode/fpc/evaluate.cpp:254-337 | and every such chain from the same board and queue ends on the same board |
| `BidTurns.ChainPrice` | demo/chaincode/fpc/evaluate.cpp:290-325 | the price at the end of a chain is the first one when no turn leaves or reaches zero excess demand; otherwise the last such turn decides: the clock price, or the demand price of the bidder whose holding fell |
| `BidTurns.RoundPrices` | demo/chaincode/fpc/evaluate.cpp:180-337 | the posted price of every territory in every later round, by the same rule, from the clock price where excess demand was positive and last round's price elsewhere |
| `BidTurns.ReleasePrice` | demo/chaincode/fpc/evaluate.cpp:322-325 | a territory that enters a round with excess demand and ends it with none is posted at the demand price of a bidder that holds fewer of its licences than before |
| `BidQueue.AscendingIsCheapestFirst` | demo/chaincode/fpc/bid.cpp:121-135 | the comparator's order is: lower price point first, and among equal ones the lower drawn value first |
| `Assignment.EveryOrderIsDrawn` | demo/chaincode/fpc/evaluate.cpp:358-376 | every order of the channels is the outcome of some random values |
| `Assignment.ThreeSwaps` | demo/chaincode/fpc/evaluate.cpp:358-376 | three channels with the values 1, 2 and 4: each position in turn is swapped with the value modulo 3 |
| `Assignment.OwnersExactly` | demo/chaincode/fpc/evaluate.cpp:386-395 | position i of the shuffled list falls to the bidder in whose stretch of licences it lies, and to nobody beyond all licences |
| `BidQueue.PricePoint` | demo/chaincode/fpc/evaluate.cpp:216-220 | a price between posted and clock price has a price point between 0 and 100, with both ends exact and within a half of its percentage of the way |
| `BidQueue.PricePointMonotone` | demo/chaincode/fpc/evaluate.cpp:216-220 | a higher bid never has a lower price point |
| `BidQueue.ComparatorNeedsDistinctKeys` | demo/chaincode/fpc/bid.cpp:121-135 | between two entries of a queue the comparator handed to the sort holds one way only exactly when the queue has no ties |
| `BidQueue.ComparatorIsTotalPreorder` | demo/chaincode/fpc/bid.cpp:121-135 | the comparator is total and transitive, holds of a bid and itself, and holds both ways exactly for ties |
| `BidQueue.SortBids` | demo/chaincode/fpc/evaluate.cpp:235-236 | sorting gives an arrangement of the same bids with the lowest price points first, ties by the drawn values |
| `BidQueue.AscendingIsUnique` | demo/chaincode/fpc/evaluate.cpp:235-236 | without ties there is only one ascending arrangement |
| `BidQueue.RearrangedQueue` | demo/chaincode/fpc/evaluate.cpp:235-236 | any rearrangement of a complete queue is complete, so safety does not depend on the order |
| `Enqueue.EnqueueBidder` | demo/chaincode/fpc/evaluate.cpp:197-234 | the inner loop queues each changed demand of a bidder exactly once, with its price point and the value drawn for it |
| `Enqueue.NextQueued` | demo/chaincode/fpc/evaluate.cpp:197-234 | adding the next bidder's entries keeps the queue complete |
| `Bids.SumQuantityDemands` | demo/chaincode/fpc/bid.cpp:101-109 | the loop computes the sum of the quantities in 32 bits |
| `Bids.GetDemandedTerritoryIds` | demo/chaincode/fpc/bid.cpp:111-119 | the loop collects the territory ids in order |
| `Bids.TotalsDoNotWrap` | demo/chaincode/fpc/bid.cpp:101-109 | for a list within supply the 32-bit sum is the sum |
| `Bids.DemandTotals` | demo/chaincode/fpc/auction-state.cpp:979-986 | the total of a list without repeated territories is the same by demand and by territory |
| `Bids.SetDifference` | demo/chaincode/fpc/auction-state.cpp:1036-1039 | the walk over two sorted lists gives the complement |
| `DynamicState.DynamicAuctionState.MissingOf` | demo/chaincode/fpc/auction-state.cpp:1028-1039 | sorting and difference give the territories that a bid does not mention |
| `Bids.FilledOnce` | demo/chaincode/fpc/auction-state.cpp:1025-1051 | after filling, every territory is mentioned exactly once |
| `Bids.FilledTarget` | demo/chaincode/fpc/auction-state.cpp:1044-1049 | submitted demands are unchanged and added ones have quantity 0 at last round's posted price |
| `Bids.FilledComplete` | demo/chaincode/fpc/auction-state.cpp:1025-1051 | a filled list of any acceptable or empty bid is complete |
| `Assignment.RandomChannelIndexes` | demo/chaincode/fpc/evaluate.cpp:358-376 | for any random values the shuffled list is a permutation |
| `Assignment.AssignChannels` | demo/chaincode/fpc/evaluate.cpp:386-395 | the walk over bidders never overruns the list and only hands out unassigned channels |
| `Assignment.Owners` | demo/chaincode/fpc/evaluate.cpp:386-395 | each bidder owns exactly its licences and the rest is unassigned |
| `Assignment.FullyAssigned` | demo/chaincode/fpc/evaluate.cpp:386-395 | when licences use up the supply nothing is left over |
| `Assignment.ChannelPrice` | demo/chaincode/fpc/evaluate.cpp:378-384 | 100 times the price is the posted price times 100 minus the impairment; impairments up to 100 percent keep it between zero and the posted price |
| `Lookups.GetTerritoryIndex` | demo/chaincode/fpc/auction-state.cpp:208-218 | the first position of an id, or -1 exactly when it is unknown |
| `Lookups.FromPrincipalToBidderId` | demo/chaincode/fpc/auction-state.cpp:260-270 | the id of the first bidder with a principal, or 0 when no bidder has it |
| `Lookups.FromBidderIdToBidderIndex` | demo/chaincode/fpc/auction-state.cpp:272-282 | the first position of a bidder id, or -1 exactly when it is unknown |
| `Lookups.GetEligibilityNumber` | demo/chaincode/fpc/auction-state.cpp:301-310 | the number in the first eligibility entry of a bidder id, nothing exactly when there is no entry |
| `DynamicState.DynamicAuctionState.constructor` | demo/chaincode/fpc/auction-state.cpp:363-405 | the initial vectors |
| `DynamicState.DynamicAuctionState.StartRound` | demo/chaincode/fpc/auction-state.cpp:901-914 | the new state is the specified one |
| `DynamicState.DynamicAuctionState.EndRound` | demo/chaincode/fpc/auction-state.cpp:916-919 | only the active flag changes |
| `DynamicState.DynamicAuctionState.IsValidBid` | demo/chaincode/fpc/auction-state.cpp:963-1005 | the reported code is that of the first failed check |
| `DynamicState.DynamicAuctionState.StoreBid` | demo/chaincode/fpc/auction-state.cpp:1018-1023 | only the submitter's bid of the current round changes |
| `DynamicState.DynamicAuctionState.FillMissingBids` | demo/chaincode/fpc/auction-state.cpp:1025-1051 | each bid of the round is completed as specified, nothing else changes |
| `DynamicState.DynamicAuctionState.ProcessInitialRoundBids` | demo/chaincode/fpc/evaluate.cpp:42-70 | licences and posted prices of round 1 are the specified ones |
| `DynamicState.DynamicAuctionState.PresetPostedPrices` | demo/chaincode/fpc/evaluate.cpp:180-193 | prices start at the clock where there is excess demand, at the last posted price elsewhere |
| `DynamicState.DynamicAuctionState.AvailableEligibility` | demo/chaincode/fpc/evaluate.cpp:241-249 | eligibility minus licences held, without underflow |
| `DynamicState.DynamicAuctionState.EnqueueBids` | demo/chaincode/fpc/evaluate.cpp:195-234 | the queue holds exactly the changed demands, with their price points and drawn values |
| `DynamicState.DynamicAuctionState.ApplyBid` | demo/chaincode/fpc/evaluate.cpp:258-326 | the rows of the round change as one application of the rule, which BidTurns.ApplyIsTurn describes cell by cell and price by price |
| `DynamicState.DynamicAuctionState.ProcessQueue` | demo/chaincode/fpc/evaluate.cpp:254-337 | the restarting loop terminates with the result of the simple rule |
| `DynamicState.DynamicAuctionState.ProcessRegularRoundBids` | demo/chaincode/fpc/evaluate.cpp:174-338 | the round is settled on a queue of exactly the changed demands, cheapest first |
| `DynamicState.DynamicAuctionState.RoundExcessDemand` | demo/chaincode/fpc/evaluate.cpp:74-91 | aggregated demand minus supply |
| `DynamicState.DynamicAuctionState.NewRoundEligibility` | demo/chaincode/fpc/evaluate.cpp:134-156 | the next eligibility of every bidder |
| `DynamicState.DynamicAuctionState.NewRoundClockPrice` | demo/chaincode/fpc/evaluate.cpp:159-166 | posted prices raised by the increment |
| `DynamicState.DynamicAuctionState.ProcessBidsPostamble` | demo/chaincode/fpc/evaluate.cpp:72-172 | the new state and code are those of the specified conclusion |
| `DynamicState.DynamicAuctionState.AssignTerritory` | demo/chaincode/fpc/evaluate.cpp:348-396 | owners and prices of one territory |
| `DynamicState.DynamicAuctionState.ProcessAssignmentRound` | demo/chaincode/fpc/evaluate.cpp:340-400 | all territories are assigned and the auction is closed |
| `SpectrumAuction.SpectrumAuctionService.constructor` | demo/chaincode/fpc/spectrum-auction.cpp:93-124 | a created auction is in the initial state and its creator is the owner |
| `SpectrumAuction.SpectrumAuctionService.StartNextRound` | demo/chaincode/fpc/spectrum-auction.cpp:160-186 | the request is one step of the auction, with its refusals |
| `SpectrumAuction.SpectrumAuctionService.SubmitClockBid` | demo/chaincode/fpc/spectrum-auction.cpp:236-269 | the request is one step of the auction, with its refusals |
| `SpectrumAuction.SpectrumAuctionService.EndRound` | demo/chaincode/fpc/spectrum-auction.cpp:188-234 | the request is one step of the auction, evaluation and assignment included |
| `Serializability.RunIsSerializable` | tlcc_enclave/enclave/ledger.cpp:65-306 | after any deliveries, a block whose transactions, with any number of actions, were simulated on earlier ledger states and write only what they read has the effect of running the accepted ones one at a time |
| `Serializability.BlockIsSerializable` | tlcc_enclave/enclave/ledger.cpp:536-578 | the committed state is that of running the accepted programs in order, each on the current state |
| `Serializability.BlockIsItsActions` | tlcc_enclave/enclave/ledger.cpp:163-285 | the updates of a block are those of the actions of its transactions, one after the other |
| `Serializability.OneWriterPerKey` | tlcc_enclave/enclave/ledger.cpp:536-578 | no two accepted transactions of a block write the same key |
| `Serializability.RunHasNoZeroVersion` | tlcc_enclave/enclave/ledger.cpp:174-175 | a ledger that began with a configuration block never stores the version that absent keys report |
| `LedgerLimits.FirstWinsExactly` | tlcc_enclave/enclave/ledger.cpp:603-704 | for any actions, committing agrees with replaying the accepted writes exactly when the first and last accepted write of every key are the same |
| `LedgerLimits.BlindWritersDiffer` | tlcc_enclave/enclave/ledger.cpp:603-704 | a block with two accepted writers of one key commits the first value where a replay leaves the second |
| `LedgerLimits.CompositeReadConflicts` | tlcc_enclave/enclave/ledger.cpp:536-558 | a point read of a composite key conflicts exactly when the entry under the bare name is newer |
| `LedgerLimits.StaleCompositeReadAccepted` | tlcc_enclave/enclave/ledger.cpp:536-558 | a stale read of a composite key is refused as a range read and accepted as a point read |
| `LedgerLimits.CompositePointReadsAreUnchecked` | tlcc_enclave/enclave/ledger.cpp:536-558 | a point read is checked under the key that writes go to exactly when it is not composite or has no components |
| `LedgerEffects.DeliverExactly` | tlcc_enclave/enclave/ledger.cpp:65-290 | a block is refused for its number exactly when that is not the next one in 32 bits, otherwise for decoding exactly when an envelope not marked invalid does not decode, and a refusal changes nothing |
| `LedgerEffects.ActionExactly` | tlcc_enclave/enclave/ledger.cpp:481-713 | what an action without stale reads leaves under every key: what the block put there before, else the first value it records there in its own version, and nothing else; of the registry only the first write is recorded |
| `LedgerEffects.DeliveredEntries` | tlcc_enclave/enclave/ledger.cpp:163-306 | after an accepted block every key holds what it held before, or a value that a transaction of the block writes there and that is not marked invalid, in the version of the block number and the place of that transaction; no key is lost |
| `LedgerEffects.OlderExactly` | tlcc_enclave/enclave/ledger.h:68-94 | versions are ordered by block, then by transaction |
| `LedgerRuns.AllOrNothing` | tlcc_enclave/enclave/ledger.cpp:481-713 | a transaction with a stale read changes nothing; any other adds every key that it writes in a tracked namespace and loses no earlier update |
| `LedgerRuns.StaleReadsConflict` | tlcc_enclave/enclave/ledger.cpp:489-558 | the reads conflict exactly when some range or point read of some namespace is older than what is stored or about to be |
| `LedgerRuns.OnlyAcceptedMatter` | tlcc_enclave/enclave/ledger.cpp:80-87 | the state after any deliveries is the fold of the accepted blocks |
| `LedgerRuns.AcceptedInSequence` | tlcc_enclave/enclave/ledger.cpp:72-87 | accepted blocks are numbered consecutively in 32 bits |
| `LedgerRuns.SequenceCounts` | tlcc_enclave/enclave/ledger.cpp:292-297 | the sequence number counts the accepted blocks |
| `LedgerRuns.AcceptedAreConsecutive` | tlcc_enclave/enclave/ledger.cpp:72-87 | the i-th accepted block is block i exactly when its number fits 32 bits |
| `LedgerRuns.TruncatedNumberIsAccepted` | tlcc_enclave/enclave/ledger.cpp:72-87 | block 2^32 passes as block 0 and leaves a version newer than the sequence number |
| `LedgerRuns.BlockUpdatesFrom` | tlcc_enclave/enclave/ledger.cpp:174-175 | every update of a block carries its number |
| `LedgerRuns.DeliverGrows` | tlcc_enclave/enclave/ledger.cpp:65-306 | an accepted block makes every version it replaces newer, a refused one changes nothing |
| `LedgerRuns.RunGrows` | tlcc_enclave/enclave/ledger.cpp:65-306 | over any deliveries versions stay below the number of accepted blocks and only grow |
| `LedgerRuns.RunIsMonotone` | tlcc_enclave/enclave/ledger.cpp:65-306 | each state of a run precedes each later one and no version is newer than the sequence number |
| `TrustedLedger.BuildCompositeKey` | tlcc_enclave/enclave/ledger.cpp:496-504 | the walk over NUL-separated components builds the dotted key |
| `TrustedLedger.Find` | tlcc_enclave/enclave/ledger.cpp:856-857 | a lookup finds exactly the entry of the map |
| `TrustedLedger.HasConflict` | tlcc_enclave/enclave/ledger.cpp:854-867 | a read conflicts exactly when the stored version is newer |
| `TrustedLedger.InsertSetWrites` | tlcc_enclave/enclave/ledger.cpp:589-705 | the writes of a namespace are inserted, the first of a key winning |
| `TrustedLedger.InsertWrites` | tlcc_enclave/enclave/ledger.cpp:583-713 | the writes of all namespaces are inserted in order |
| `TrustedLedger.OverlayIsUnion` | tlcc_enclave/enclave/ledger.cpp:298-303 | assigning the updates one by one is the union of the maps |
| `TrustedLedger.TrustedLedger.CheckRangeReads` | tlcc_enclave/enclave/ledger.cpp:489-533 | the keys of range queries are checked under their dotted spelling |
| `TrustedLedger.TrustedLedger.CheckReads` | tlcc_enclave/enclave/ledger.cpp:481-567 | a transaction is valid exactly when none of its reads conflicts with state or updates |
| `TrustedLedger.TrustedLedger.ParseEndorserTransaction` | tlcc_enclave/enclave/ledger.cpp:393-851 | the updates grow by the writes of the valid actions |
| `TrustedLedger.TrustedLedger.CommitStateUpdates` | tlcc_enclave/enclave/ledger.cpp:292-306 | the state becomes the union with the updates, and the sequence number the block's |
| `TrustedLedger.TrustedLedger.ParseBlock` | tlcc_enclave/enclave/ledger.cpp:65-290 | state and code are those of the specified delivery |
| `TrustedLedger.TrustedLedger.GetStateHash` | tlcc_enclave/enclave/ledger.cpp:880-905 | the digest of the stored value, zeros when there is none |
| `TrustedLedger.TrustedLedger.GetMultiStateHash` | tlcc_enclave/enclave/ledger.cpp:907-942 | the digest over exactly the entries with the prefix, each key before its value and the keys in dictionary order of their bytes |
| `TrustedLedger.Scan` | tlcc_enclave/enclave/ledger.cpp:917-938 | the iteration feeds the stripped keys and values up to the first key without the prefix |
| `ByteOrder.PutRepresents` | tlcc_enclave/enclave/ledger.cpp:302-302 | assigning in the ordered list is assigning in the map |
| `ByteOrder.PrefixContiguous` | tlcc_enclave/enclave/ledger.cpp:917-929 | keys that share a prefix are contiguous |
| `ByteOrder.OrderedUnique` | tlcc_enclave/enclave/ledger.h:57-63 | an ordered map has one listing |
| `ByteOrder.LessExactly` | tlcc_enclave/enclave/ledger.h:57-63 | one key comes before another exactly when it is a proper prefix, or has the smaller byte at the first difference |
| `ByteOrder.OrderedExactly` | tlcc_enclave/enclave/ledger.h:57-63 | a listing of the map is ordered exactly when every key comes before all later ones in that sense |
| `ByteLayouts.EntryStands` | tlcc_enclave/enclave/ledger.cpp:917-938 | in the hashed bytes every entry stands after all earlier ones, its stripped key before its value |
| `ByteLayouts.TwoEntries` | tlcc_enclave/enclave/ledger.cpp:917-938 | the entries ecc.a with 1 and ecc.b with 2 are hashed as .a1.b2 |
| `ByteLayouts.ValueStands` | ecc_enclave/enclave/shim.cpp:223-236 | in the bytes that a chaincode enclave hashes every value stands after its key and all earlier pairs |
| `ByteLayouts.MacLayout` | tlcc_enclave/enclave/enclave.cpp:73-99 | what is authenticated is the queried key followed by the 32 bytes of the digest, in both enclaves |
| `ByteLayouts.PointMacLayout` | tlcc_enclave/enclave/enclave.cpp:47-71 | for a single key likewise, with zeros where the ledger does not have it |
| `Queries.ScanIsFilter` | tlcc_enclave/enclave/ledger.cpp:917-938 | the scan from the lower bound visits exactly the keys with the prefix, in order |
| `Queries.FromDotExactly` | tlcc_enclave/enclave/enclave.cpp:80-86 | removing the chaincode name gives the queried prefix back exactly when the name has no dot and the prefix begins with one, or the name is empty and neither has one |
| `Queries.AfterDotExactly` | tlcc_enclave/enclave/enclave.cpp:52-58 | removing the chaincode name gives the key back exactly when the name has no dot |
| `Queries.LedgerKeyOfComposite` | tlcc_enclave/enclave/ledger.cpp:676-694 | the ledger key of a composite key is the name followed by the enclave's spelling, exactly when no component is empty |
| `Queries.HashValues` | ecc_enclave/enclave/shim.cpp:223-236 | the loop hashes keys and values in map order |
| `Queries.SameEntries` | ecc_enclave/enclave/shim.cpp:205-236 | the values handed to the chaincode are the entries that the ledger scans, in the same order |
| `Queries.RangeMacsAgreeExactly` | tlcc_enclave/enclave/enclave.cpp:73-99 | over the same entries both enclaves authenticate the same bytes for a prefix query exactly when the chaincode name has no dot |
| `Queries.PointMacsAgreeExactly` | tlcc_enclave/enclave/enclave.cpp:47-71 | for a key that is not composite both enclaves authenticate the same bytes exactly when the name has no dot and the key is present |
| `Queries.CompositePointMacs` | tlcc_enclave/enclave/enclave.cpp:47-71 | for a composite key exactly when it is what follows the first dot of the name and a dot and the digests agree, so never when the name has no dot |
| `PeerState.PeerAnswerExactly` | ecc/enclave/enclave_stub.go:228-258 | the peer's answer to a range read is what the ledger enclave scans exactly when no plain key falls under the query |
| `PeerState.PeerRangeMacsAgree` | tlcc_enclave/enclave/enclave.cpp:73-99 | for the peer's own answer without such keys both enclaves authenticate the same bytes exactly when the name has no dot |
| `PeerState.PlainKeyIntrudes` | tlcc_enclave/enclave/ledger.cpp:689-694 | the plain key a.b falls under the query .a. |
| `PeerState.TidyLedgerKey` | tlcc_enclave/enclave/ledger.cpp:676-694 | the ledger key of a composite key without dots and empty components is the name and the enclave's spelling |
| `RangeAnswer.AnswerParses` | ecc/enclave/enclave_stub.go:238-258 | the text in which the peer sends keys and values is parsed as exactly these pairs when they are plain |
| `RangeAnswer.RawQuoteExactly` | ecc/enclave/enclave_stub.go:244-248 | a text between quotes is read back exactly when it has no quote, backslash or control character |
| `LedgerReaders.ReadersSeeBlockBoundaries` | tlcc/tlcc.go:139-153 | in every interleaving of one feeder and any readers, a completed query has the answer of one block-boundary state current between its call and its end |
| `LedgerReaders.RunInv` | tlcc_enclave/enclave/ledger.cpp:256-306 | every interleaving keeps mutual exclusion, the memory and the record of committed states |
| `LedgerReaders.NextInv` | tlcc_enclave/enclave/ledger.cpp:256-306 | every small step keeps the invariant |
| `LedgerReaders.CommitOneInv` | tlcc_enclave/enclave/ledger.cpp:298-303 | a half-done commit is on its way to the delivered state and no reader is inside |
| `LedgerReaders.CheckInv` | tlcc_enclave/enclave/ledger.cpp:256-277 | checking an envelope under the lock sees the last committed state |
| `LedgerReaders.CommitUnlockInv` | tlcc_enclave/enclave/ledger.cpp:292-306 | the memory that a commit releases is the delivered state |
| `LedgerReaders.AdvanceInv` | tlcc_enclave/enclave/ledger.cpp:885-938 | each visited entry leads a query towards its answer on the current state |
| `LedgerReaders.HistoryIsFold` | tlcc_enclave/enclave/ledger.cpp:292-306 | the n-th committed state is the fold of the first n committed blocks |
| `LedgerReaders.AnswerIsUnique` | tlcc_enclave/enclave/ledger.cpp:880-942 | a query has one answer on a state |
| `CompositeKeys.RejoinSplit` | internal/utils/utils.go:45-52 | splitting a composite key and rejoining it replaces its dots by NULs |
| `CompositeKeys.KeyRoundTrip` | internal/utils/utils.go:37-52 | a key of the enclave, translated for the peer and transformed back by the validator, is the same key |
| `CompositeKeys.FabricRoundTrip` | internal/utils/utils.go:37-52 | a composite key of the peer survives the other way round exactly when it contains no dot |
| `CompositeKeys.SingleDot` | internal/utils/utils.go:45-52 | the single dot has no components, so there is no key on the peer |
| `CompositeKeys.PeerKeyExactly` | ecc/enclave/enclave_stub.go:180-185 | when the peer refuses a component the stub asks for the empty key; a key survives exactly when no component is refused |
| `Endorsement.SignedBytesAgreeExactly` | plugins/ecc-vscc/ecc_validation_logic.go:176-229 | when first and last value written to each key are equal: with every scanned key shown, signed and rebuilt bytes agree exactly when no key is shown twice; with no key shown twice, exactly when every scanned key is shown |
| `Endorsement.InvocationAgrees` | ecc_enclave/enclave/enclave.cpp:85-114 | the same for the context that an invocation leaves behind |
| `Endorsement.WritesAgreeExactly` | ecc_enclave/enclave/shim.cpp:150-155 | for any operations the enclave's first and the peer's last values are the same map exactly when the first and last value of every key are equal |
| `Endorsement.WritesOnceAgree` | ecc_enclave/enclave/shim.cpp:150-155 | writing each key once is enough |
| `Endorsement.RewrittenKeyDiffers` | ecc_enclave/enclave/shim.cpp:150-155 | a key written twice is recorded with its first value by the enclave and its last by the peer |
| `Endorsement.UnlistedReadsDiffer` | plugins/ecc-vscc/ecc_validation_logic.go:192-202 | a scanned key that the transaction does not show makes the rebuilt bytes differ |
| `Endorsement.ReadKeysMatch` | plugins/ecc-vscc/ecc_validation_logic.go:185-202 | the enclave has read exactly what the transaction shows and what it does not list |
| `Endorsement.OnlyNamespace` | plugins/ecc-vscc/ecc_validation_logic.go:178-183 | the sets of other namespaces add nothing |
| `Endorsement.CollectReads` | plugins/ecc-vscc/ecc_validation_logic.go:185-202 | direct reads, then listed range queries; those without a list are skipped |
| `Endorsement.ReadListsMatch` | plugins/ecc-vscc/ecc_validation_logic.go:185-221 | when all keys are shown, the enclave's ordered set is the validator's sorted list without repetitions |
| `Endorsement.WriteListsMatch` | plugins/ecc-vscc/ecc_validation_logic.go:204-228 | the validator's sorted writes are the ordered map of the last values |
| `Endorsement.SqueezeBytes` | plugins/ecc-vscc/ecc_validation_logic.go:213-221 | dropping repeated keys keeps the bytes exactly when only the empty key is repeated |
| `Endorsement.SortSorts` | plugins/ecc-vscc/ecc_validation_logic.go:213-215 | sorting gives an arrangement of the same keys in dictionary order of their bytes |
| `Endorsement.SortedExactly` | plugins/ecc-vscc/ecc_validation_logic.go:213-215 | keys are sorted exactly when each equals or comes before every later one in dictionary order |
| `ByteLayouts.SignedLayout` | ecc_enclave/enclave/enclave.cpp:92-112 | in the signed bytes the header stands first, then the keys read one after the other, then each key written before its value |
| `ByteLayouts.SignedExample` | ecc_enclave/enclave/enclave.cpp:92-112 | a header h, reads of a and b and a write of v to k are signed as habkv |
| `Endorsement.CheckedBytes` | plugins/ecc-vscc/ecc_validation_logic.go:176-229 | the loops over namespaces, reads and writes compute the specified bytes |
| `Endorsement.SortedWrites` | plugins/ecc-vscc/ecc_validation_logic.go:204-228 | keys and values of the writes in key order |
| `Endorsement.AppendKeys` | ecc/crypto/ecdsa.go:163-167 | the keys are hashed one after the other |
| `Endorsement.AppendItems` | ecc/crypto/ecdsa.go:168-172 | keys and values are hashed one after the other |
| `Endorsement.ShimContext.GetPublicState` | ecc_enclave/enclave/shim.cpp:92-96 | the key joins the ordered read set |
| `Endorsement.ShimContext.PutPublicState` | ecc_enclave/enclave/shim.cpp:150-155 | the value joins the ordered write set unless the key is there |
| `Endorsement.ShimContext.GetPublicStateByPartialCompositeKey` | ecc_enclave/enclave/shim.cpp:228-234 | every returned key joins the read set |
| `Endorsement.ShimContext.GenResponse` | ecc_enclave/enclave/enclave.cpp:85-114 | header, reads and writes are hashed in this order |
| `Base64.RoundTrip` | common/base64/base64.cpp:45-122 | decoding an encoding gives the bytes back |
| `Base64.EncodedLength` | common/base64/base64.cpp:45-85 | every started group of three bytes takes four characters |
| `Base64.OctetsOfSextets` | common/base64/base64.cpp:97-119 | regrouping bits in sixes and back in eights is the identity |
| `Base64.AlphabetExactly` | common/base64/base64.cpp:35-38 | the alphabet by character codes, as in table 1 of RFC 4648 |
| `Base64.GroupValue` | common/base64/base64.cpp:52-59 | three bytes and the four sextets they are cut into are the same 24-bit number |
| `Base64.Examples` | common/base64/base64.cpp:45-85 | the encodings of f, fo and foo in section 10 of RFC 4648 |
| `Base64.EncodeLoop` | common/base64/base64.cpp:45-85 | the loop over the three-byte work array computes the encoding |
| `Base64.DecodeLoop` | common/base64/base64.cpp:87-122 | the loop over the four-character work array computes the bytes of the leading alphabet characters |
| `Base64.DecodeText` | common/base64/base64.cpp:87-122 | decoding stops at padding or a foreign character |
| `Storage.StringRoundTrip` | demo/chaincode/fpc/storage.cpp:14-76 | a stored string is read back exactly when it has no NUL and its length plus one is below 10^9 |
| `Storage.PutDisturbsNothingElse` | demo/chaincode/fpc/storage.cpp:14-76 | storing under one key leaves what is read under another |
| `Storage.LengthAfterPut` | demo/chaincode/fpc/storage.cpp:16-57 | the stored length is read back exactly when it has at most nine digits |
| `Storage.KeysDiffer` | demo/chaincode/fpc/storage.cpp:24-29 | a string is stored under its key with L and K added, and length and value keys of different strings never coincide |
| `Storage.StoredBytes` | demo/chaincode/fpc/storage.cpp:28-31 | the stored bytes end with their only NUL exactly when nothing wrapped and the string has none |
| `Storage.StoulOfDigits` | demo/chaincode/fpc/storage.cpp:18-57 | std::stoul on the decimal text gives the number back |
| `Storage.StoulExactly` | demo/chaincode/fpc/storage.cpp:57-57 | std::stoul, cut to 32 bits, skips white space, obeys a sign, negating in 64 bits, stops after the digits, and fails from 2^64 on |
| `Storage.NoNumber` | demo/chaincode/fpc/storage.cpp:57-57 | and fails on a sign without digits |
| `Storage.DigitCount` | demo/chaincode/fpc/storage.cpp:19-23 | a number has at most k digits exactly when it is below 10^k |
| `Storage.GetAfterPut` | ecc_enclave/enclave/shim.cpp:40-90 | an encrypted and encoded value is read back exactly when it fits the buffer, and any value up to the maximum fits |
| `Storage.StateAccess.Get` | ecc_enclave/enclave/shim.cpp:40-90 | buffer limit, decoding and decryption as specified, with the value in the caller's buffer |
| `Storage.StateAccess.Put` | ecc_enclave/enclave/shim.cpp:132-148 | the encrypted and encoded value is written |
| `Storage.StateAccess.LedgerPrivatePutString` | demo/chaincode/fpc/storage.cpp:14-32 | length and value are written as specified |
| `Storage.StateAccess.LedgerPrivateGetString` | demo/chaincode/fpc/storage.cpp:34-76 | the string is read as specified, with every refusal |
| `Storage.StateAccess.ReadLength` | demo/chaincode/fpc/storage.cpp:36-57 | the stored length is read as specified |
| `JsonRoundTrip.PrintedTextRoundTrip` | common/json/parson.c:1118-1126 | compact or pretty, a printed value whose numbers strtod reads is parsed back exactly when it has no NULs, unique names and nesting at most 2048 |
| `JsonGrammar.AcceptedIsText` | common/json/parson.c:1118-1126 | whatever the parser accepts is a byte order mark or none, white space, a text of the grammar for exactly the value returned, nested at most 2048 deep, and an ignored rest; numbers are what strtod consumes and the test for zeros passes |
| `JsonGrammar.TextIsAccepted` | common/json/parson.c:1118-1126 | every text of the grammar, with any white space the grammar allows, whose numbers strtod reads, is parsed as its value exactly when it is nested at most 2048 deep |
| `JsonGrammar.ElementsAreSpelled` | common/json/parson.c:784-807 | an accepted array body is a list of elements with single commas between them and white space around them |
| `JsonGrammar.MembersAreSpelled` | common/json/parson.c:723-761 | an accepted object body is a list of quoted names, colons and values with single commas between them and white space around them |
| `JsonGrammar.TreeIsParsed` | common/json/parson.c:679-702 | a text of the grammar is parsed at its nesting level before anything that may follow a value |
| `JsonGrammar.QuotedIsClosed` | common/json/parson.c:668-677 | an accepted quoted string ends at its first quote that is not escaped, and is read by its escapes |
| `JsonRoundTrip.RoundTrip` | common/json/parson.c:679-702 | a printed value is parsed at its nesting level before anything that the printer puts after it |
| `JsonNumbers.PrintedValueRoundTrip` | common/json/parson.c:983-1000 | the round trip for every value whose numbers have the form that the printer writes, read by the longest decimal number |
| `JsonNumbers.PrintedNumberIsReadable` | common/json/parson.c:839-849 | every printed number passes the test for superfluous zeros and is read whole wherever the printer writes it |
| `JsonNumbers.LongestDecimalOf` | common/json/parson.c:843-843 | the longest decimal number at a printed number is that number |
| `JsonNumbers.DecimalExactly` | common/json/parson.c:253-266 | a decimal number passes the parser's test exactly when it has no superfluous zero in front |
| `JsonNumbers.HexIsNotDecimal` | common/json/parson.c:253-266 | a hexadecimal number never passes |
| `JsonUnicode.Utf8Reads` | common/json/parson.c:573-599 | the bytes written for a character are read back as that character by the byte ranges of RFC 3629, in one to four bytes by its range |
| `JsonUnicode.CodeUnit` | common/json/parson.c:563-607 | an escaped code unit that is no surrogate leaves bytes that read as its character, in one, two or three bytes by range |
| `JsonUnicode.SurrogatePair` | common/json/parson.c:584-600 | an escaped lead and trail surrogate leave four bytes that read as the character of the pair |
| `JsonUnicode.LoneSurrogate` | common/json/parson.c:584-603 | a trail surrogate alone, or a lead surrogate that no escaped trail surrogate follows, is refused |
| `JsonUnicode.HexValues` | common/json/parson.c:157-166 | the sixteen digits, in both cases, have their values |
| `JsonUnicode.Hex4Reads` | common/json/parson.c:157-182 | four hexadecimal digits in either case are their number |
| `JsonForms.EscapeExactly` | common/json/parson.c:1018-1067 | eight characters have short escapes, other control characters the escape with their code, and exactly the rest stand for themselves |
| `JsonForms.NoRawControls` | common/json/parson.c:642-643 | an accepted string holds no control character as it is |
| `JsonForms.PlainExactly` | common/json/parson.c:620-649 | a string without backslashes is accepted exactly when it holds no control character, and stands for itself |
| `JsonForms.ArrayLayout` | common/json/parson.c:883-913 | two elements: one per line and indented one level deeper, or side by side, with a comma after the first only |
| `JsonForms.ObjectLayout` | common/json/parson.c:914-961 | two members likewise |
| `JsonForms.MemberForms` | common/json/parson.c:926-949 | a name stands before its value, with a colon and in the pretty form a blank between them |
| `JsonForms.IndentExactly` | common/json/parson.c:1072-1079 | an indentation is four blanks for each level |
| `JsonForms.MarkIsSkipped` | common/json/parson.c:1118-1126 | a byte order mark before a text makes no difference |
| `JsonNumbers.UnconsumedExactly` | common/json/parson.c:839-849 | a value is accepted without consuming anything exactly when a number could start and strtod consumes nothing; it is the number of no text |
| `JsonNumbers.UnconsumedElementFails` | common/json/parson.c:784-807 | such a value is never accepted inside an array |
| `JsonNumbers.UnconsumedMemberFails` | common/json/parson.c:723-761 | nor inside an object |
| `JsonNumbers.MinusAlone` | common/json/parson.c:839-849 | a minus sign alone is parsed as the number of no text |
| `JsonRoundTrip.ElementsRoundTrip` | common/json/parson.c:766-810 | the elements of a printed array are parsed back |
| `JsonRoundTrip.MembersRoundTrip` | common/json/parson.c:704-764 | the members of a printed object are parsed back |
| `JsonRoundTrip.ParsedIsSane` | common/json/parson.c:679-702 | whatever the parser returns has unique names, no NULs and bounded nesting |
| `JsonRoundTrip.QuoteRoundTrip` | common/json/parson.c:668-677 | a quoted string is parsed back, every escape included |
| `JsonRoundTrip.UnescapeEscaped` | common/json/parson.c:612-664 | unescaping undoes escaping |
| `JsonRoundTrip.ToQuoteEscaped` | common/json/parson.c:543-561 | the closing quote is found behind any escaped text |
| `JsonRoundTrip.EscapeForms` | common/json/parson.c:1011-1070 | a character is written plainly, with a backslash, or with four hexadecimal digits |
| `JsonWriter.SerializationSize` | common/json/parson.c:1490-1494 | the counting pass finds the length of the text plus one |
| `JsonWriter.SerializeToBuffer` | common/json/parson.c:1496-1507 | a buffer is filled with the text and a NUL exactly when it is large enough |
| `JsonWriter.SerializeToString` | common/json/parson.c:1533-1550 | the counted size is exactly filled |
| `JsonWriter.Sink.Append` | common/json/parson.c:1082-1087 | the text and its terminator are appended, or only counted |
| `JsonWriter.Sink.AppendIndent` | common/json/parson.c:1072-1079 | four blanks for each level |
| `JsonWriter.Sink.WriteString` | common/json/parson.c:1011-1070 | the quoted string is appended |
| `JsonWriter.Sink.WriteValue` | common/json/parson.c:871-1009 | the printed value is appended |
| `JsonWriter.Sink.WriteElements` | common/json/parson.c:889-908 | the elements with their separators are appended |
| `JsonWriter.Sink.WriteMembers` | common/json/parson.c:921-956 | the members with their separators are appended |
| `JsonParser.ParseText` | common/json/parson.c:1118-1126 | the parser finds what the specification finds, a byte order mark skipped |
| `JsonParser.ParseValueAt` | common/json/parson.c:679-702 | a value is found where and as specified |
| `JsonParser.ParseArrayAt` | common/json/parson.c:766-810 | the loop over elements finds the specified array |
| `JsonParser.ParseObjectAt` | common/json/parson.c:704-764 | the specified object is found |
| `JsonParser.ParseMembersAt` | common/json/parson.c:723-755 | the loop over members refuses a repeated name |
| `JsonParser.ParseScalar` | common/json/parson.c:826-858 | truth values, numbers and null: what the parser finds there is the value whose printed form is the consumed text |
| `JsonParser.GetQuotedString` | common/json/parson.c:668-677 | a quoted string is found as specified |
| `JsonParser.SkipQuotes` | common/json/parson.c:543-561 | the loop finds the closing quote |
| `JsonParser.ProcessString` | common/json/parson.c:612-664 | the loop unescapes as specified; JsonUnicode says what every escape of a code unit or pair leaves |
| `JsonParser.SkipSpaces` | common/json/parson.c:50-50 | white space is skipped |
| `JsonParser.JsonObject.Add` | common/json/parson.c:359-382 | a member is appended unless its name is there; growing the arrays loses nothing |
| `JsonParser.JsonObject.Resize` | common/json/parson.c:384-412 | the contents survive a change of capacity |
| `JsonParser.JsonObject.Has` | common/json/parson.c:414-426 | a name is found exactly when a member has it |

## Left out

- JSON form of the auction's state and messages: field-by-field copying; stored bids pass an integer-only price check.
- Cryptography (AES-GCM, CMAC, SHA-256, ECDSA, X.509, attestation): uninterpreted, as described above.
- Decoding of blocks, certificates and signatures in the ledger enclave: only whether an envelope decodes is kept; failed
  signature checks change nothing in the program.
- Range-query phantoms: range reads are checked key by key, as in the program.
- Reads past the end of a malformed composite key, and a registry transaction without writes: undefined in the program;
  the walk stops at the end of the key, and no write is recorded.
- Failure of the random source and of memory allocation, and floating-point rounding.
- Queries of the auction that change nothing (details, status, round information and results), and publishing results.
- The command line, HTTP, the front end, mocks, and the other example chaincodes.
- Storage.StateAccess.Get: a value longer than the caller's buffer is cut off there; what the program does then is
  undefined.
- Storage.GetString: an exception on the way is a missing result; a stored length of zero, undefined in the program, too.
- JsonWriter.Sink.WriteValue: does not model the overflow of the 32-bit count for texts of 2^31 characters and more.
- JsonWriter.SerializationSize: the same.
- Json.Print: prints the value of a member directly where the program looks it up by its name, which is unique.
- LedgerReaders.CheckInv: the reads that check one envelope are one step, since they are made under one lock and change
  nothing.
- Endorsement.SignedBytesAgreeExactly: where first and last values of a key differ, or keys are shown twice and others
  not at all, only the recorded maps and lists are compared, because concatenated bytes of different ones can coincide.
- Endorsement.Completes: a transaction that uses a composite key with a component that the peer refuses, for which
  `CompositeKeys.PeerKeyExactly` shows that the stub asks for the empty key.
- RangeAnswer.AnswerParses: for keys or values that are not plain only single strings are characterised
  (`RangeAnswer.RawQuoteExactly`).
