/** Exact conditions: which bids are accepted, and when round 1 keeps every bid within a bidder's own share. */
module AuctionLimits {
  import opened Tally
  import opened Basics
  import opened AuctionSetup
  import opened BidLoop
  import opened Bids
  import opened Auction

  // ----- accepted bids -----

  /** The declarative meaning of the bid checks in the current round. */
  predicate Acceptable(s: Setup, a: State, limit: nat, demands: seq<Demand>)
    requires Rows(s, a, |a.licences|)
  {
    && DemandsWithin(s, demands)
    && (a.round == 1 ==> demands == [] || Sum(Quantities(demands)) % WORD <= limit)
    && (a.round > 1 ==> forall i :: 0 <= i < |demands| ==>
          var t := Position(s.TerritoryIds(), demands[i].territoryId);
          a.posted[a.round - 1][t] <= demands[i].price <= a.clock[a.round][t])
  }

  lemma {:induction false} AllChecksPass(s: Setup, a: State, limit: nat, demands: seq<Demand>, i: nat)
    requires Rows(s, a, |a.licences|) && i <= |demands|
    requires forall j :: i <= j < |demands| ==> DemandCheck(s, a, limit, demands, j) == Success
    ensures DemandsCheck(s, a, limit, demands, i) == Success
    decreases |demands| - i
  {
    hide Rows, DemandCheck;
    if i < |demands| {
      AllChecksPass(s, a, limit, demands, i + 1);
    }
  }

  lemma AcceptablePasses(s: Setup, a: State, limit: nat, demands: seq<Demand>, i: nat)
    requires Rows(s, a, |a.licences|) && Acceptable(s, a, limit, demands) && i < |demands|
    ensures DemandCheck(s, a, limit, demands, i) == Success
  {
    assert forall j :: 0 <= j < i ==> Ids(demands[..i])[j] == Ids(demands)[j] != Ids(demands)[i];
  }

  /** The loop of checks accepts a demand list exactly when it is acceptable. */
  lemma ChecksAreExact(s: Setup, a: State, limit: nat, demands: seq<Demand>)
    requires Rows(s, a, |a.licences|)
    ensures DemandsCheck(s, a, limit, demands, 0) == Success <==> Acceptable(s, a, limit, demands)
  {
    if DemandsCheck(s, a, limit, demands, 0) == Success {
      CheckedWithin(s, a, limit, demands);
      forall i | 0 <= i < |demands|
        ensures a.round == 1 ==> Sum(Quantities(demands)) % WORD <= limit
        ensures a.round > 1 ==> var t := Position(s.TerritoryIds(), demands[i].territoryId);
                  t < s.TerritoryCount() && a.posted[a.round - 1][t] <= demands[i].price <= a.clock[a.round][t]
      {
        assert DemandCheck(s, a, limit, demands, i) == Success;
      }
    } else if Acceptable(s, a, limit, demands) {
      forall i | 0 <= i < |demands| ensures DemandCheck(s, a, limit, demands, i) == Success {
        AcceptablePasses(s, a, limit, demands, i);
      }
      AllChecksPass(s, a, limit, demands, 0);
    }
  }

  // ----- reasons for refusal -----

  /** A demand has the fault that a code names. Territory t is any one with the demanded id. */
  ghost predicate Faulty(s: Setup, a: State, limit: nat, demands: seq<Demand>, i: nat, c: Code)
    requires Rows(s, a, |a.licences|) && i < |demands|
  {
    var d := demands[i];
    match c
    case UnrecognizedTerritory => forall t :: 0 <= t < s.TerritoryCount() ==> s.territories[t].id != d.territoryId
    case DuplicateTerritories => exists j :: 0 <= j < i && demands[j].territoryId == d.territoryId
    case TooMuchDemand =>
      exists t :: 0 <= t < s.TerritoryCount() && s.territories[t].id == d.territoryId
                  && d.quantity > |s.territories[t].channels|
    case NotEnoughEligibility => a.round == 1 && Sum(Quantities(demands)) % WORD > limit
    case BelowPostedPrice =>
      exists t :: 0 <= t < s.TerritoryCount() && s.territories[t].id == d.territoryId
                  && a.round > 1 && d.price < a.posted[a.round - 1][t]
    case AboveClockPrice =>
      exists t :: 0 <= t < s.TerritoryCount() && s.territories[t].id == d.territoryId
                  && a.round > 1 && d.price > a.clock[a.round][t]
    case _ => false
  }

  /** The order in which the faults of one demand are looked for. */
  function Rank(c: Code): nat {
    match c
    case UnrecognizedTerritory => 1
    case DuplicateTerritories => 2
    case TooMuchDemand => 3
    case NotEnoughEligibility => 4
    case BelowPostedPrice => 5
    case AboveClockPrice => 6
    case _ => 0
  }

  /** A demand has a fault and none that is looked for before it. */
  ghost predicate FirstFault(s: Setup, a: State, limit: nat, demands: seq<Demand>, i: nat, c: Code)
    requires Rows(s, a, |a.licences|) && i < |demands|
  {
    && Faulty(s, a, limit, demands, i, c)
    && forall c' :: Rank(c') < Rank(c) ==> !Faulty(s, a, limit, demands, i, c')
  }

  ghost predicate Faultless(s: Setup, a: State, limit: nat, demands: seq<Demand>, i: nat)
    requires Rows(s, a, |a.licences|) && i < |demands|
  {
    forall c :: !Faulty(s, a, limit, demands, i, c)
  }

  lemma RepeatedExactly(demands: seq<Demand>, i: nat)
    requires i < |demands|
    ensures demands[i].territoryId in Ids(demands[..i]) <==>
            exists j :: 0 <= j < i && demands[j].territoryId == demands[i].territoryId
  {
    var ids := Ids(demands[..i]);
    assert forall j :: 0 <= j < i ==> ids[j] == demands[j].territoryId;
    if j :| 0 <= j < i && demands[j].territoryId == demands[i].territoryId {
      assert ids[j] == demands[i].territoryId;
    }
  }

  /** With distinct territory ids there is at most one territory of an id, the one that the lookup finds. */
  lemma TerritoryOfId(s: Setup, id: nat, t: nat)
    requires Distinct(s.TerritoryIds()) && t < s.TerritoryCount()
    ensures s.territories[t].id == id <==> Position(s.TerritoryIds(), id) == t
  {
    if s.territories[t].id == id {
      assert s.TerritoryIds()[t] == id;
      PositionOfDistinct(s.TerritoryIds(), t);
    }
  }

  /** The faults of a demand in terms of the lookup's result. */
  lemma FaultsExactly(s: Setup, a: State, limit: nat, demands: seq<Demand>, i: nat)
    requires Rows(s, a, |a.licences|) && Distinct(s.TerritoryIds()) && i < |demands|
    ensures var d := demands[i];
            var t := Position(s.TerritoryIds(), d.territoryId);
            && (Faulty(s, a, limit, demands, i, UnrecognizedTerritory) <==> t == s.TerritoryCount())
            && (Faulty(s, a, limit, demands, i, DuplicateTerritories) <==> d.territoryId in Ids(demands[..i]))
            && (t < s.TerritoryCount() ==>
                  && (Faulty(s, a, limit, demands, i, TooMuchDemand) <==> d.quantity > s.Supply()[t])
                  && (Faulty(s, a, limit, demands, i, BelowPostedPrice) <==>
                      a.round > 1 && d.price < a.posted[a.round - 1][t])
                  && (Faulty(s, a, limit, demands, i, AboveClockPrice) <==>
                      a.round > 1 && d.price > a.clock[a.round][t]))
  {
    RepeatedExactly(demands, i);
    var id := demands[i].territoryId;
    var t := Position(s.TerritoryIds(), id);
    if t < s.TerritoryCount() {
      assert s.TerritoryIds()[t] == s.territories[t].id;
    }
    forall u: nat | u < s.TerritoryCount() ensures s.territories[u].id == id <==> t == u {
      TerritoryOfId(s, id, u);
    }
  }

  lemma OnlyFaults(s: Setup, a: State, limit: nat, demands: seq<Demand>, i: nat)
    requires Rows(s, a, |a.licences|) && i < |demands|
    ensures forall c :: Faulty(s, a, limit, demands, i, c) ==> Rank(c) > 0
    ensures Faulty(s, a, limit, demands, i, NotEnoughEligibility) <==>
            a.round == 1 && Sum(Quantities(demands)) % WORD > limit
  {
  }

  /** The check of one demand reports its first fault. */
  lemma CheckReports(s: Setup, a: State, limit: nat, demands: seq<Demand>, i: nat)
    requires Rows(s, a, |a.licences|) && Distinct(s.TerritoryIds()) && i < |demands|
    ensures var c := DemandCheck(s, a, limit, demands, i);
            if c == Success then Faultless(s, a, limit, demands, i) else FirstFault(s, a, limit, demands, i, c)
  {
    assert a.round >= 1;
    hide Faulty, Rows;
    FaultsExactly(s, a, limit, demands, i);
    OnlyFaults(s, a, limit, demands, i);
  }

  lemma DemandCheckExactly(s: Setup, a: State, limit: nat, demands: seq<Demand>, i: nat, c: Code)
    requires Rows(s, a, |a.licences|) && Distinct(s.TerritoryIds()) && i < |demands| && c != Success
    ensures DemandCheck(s, a, limit, demands, i) == c <==> FirstFault(s, a, limit, demands, i, c)
    ensures DemandCheck(s, a, limit, demands, i) == Success <==> Faultless(s, a, limit, demands, i)
  {
    CheckReports(s, a, limit, demands, i);
    var r := DemandCheck(s, a, limit, demands, i);
    OnlyFaults(s, a, limit, demands, i);
    if FirstFault(s, a, limit, demands, i, c) && r != Success {
      assert Rank(c) == Rank(r);
    }
    hide Faulty, Rows, DemandCheck;
  }

  /** A bid is refused for the first fault of its first faulty demand. */
  lemma {:induction false} RefusalExactly(s: Setup, a: State, limit: nat, demands: seq<Demand>, from: nat, c: Code)
    requires Rows(s, a, |a.licences|) && Distinct(s.TerritoryIds()) && from <= |demands| && c != Success
    ensures DemandsCheck(s, a, limit, demands, from) == c <==>
            exists i: nat :: from <= i < |demands| && FirstFault(s, a, limit, demands, i, c)
                             && forall j :: from <= j < i ==> Faultless(s, a, limit, demands, j)
    decreases |demands| - from
  {
    hide Rows, DemandCheck, Faulty, FirstFault, Faultless;
    if from < |demands| {
      DemandCheckExactly(s, a, limit, demands, from, c);
      RefusalExactly(s, a, limit, demands, from + 1, c);
    }
  }

  lemma DemandsCheckCodes(s: Setup, a: State, limit: nat, demands: seq<Demand>)
    requires Rows(s, a, |a.licences|) && Distinct(s.TerritoryIds())
    ensures var c := DemandsCheck(s, a, limit, demands, 0); c == Success || Rank(c) > 0
  {
    var c := DemandsCheck(s, a, limit, demands, 0);
    if c != Success {
      RefusalExactly(s, a, limit, demands, 0, c);
      var i: nat :| i < |demands| && FirstFault(s, a, limit, demands, i, c);
      OnlyFaults(s, a, limit, demands, i);
    }
  }

  /** The reasons for refusing a bid that do not lie in its demands. */
  lemma BidRefusedExactly(s: Setup, a: State, p: Principal, bid: Bid)
    requires Rows(s, a, |a.licences|) && Listed(s) && Distinct(s.TerritoryIds())
    ensures var c, known := BidCheck(s, a, p, bid), SubmitterId(s.bidders, p) != 0;
            && (c == UnrecognizedSubmitter <==> !known)
            && (c == RoundNotCurrent <==> known && bid.round != a.round)
            && (c == RoundNotActive <==> known && bid.round == a.round && !a.active)
  {
    if SubmitterId(s.bidders, p) != 0 {
      SubmitterCovered(s, p);
      hide Rows, Listed, EligibilityNumber, SubmitterId, DemandsCheck;
      DemandsCheckCodes(s, a, EligibilityNumber(s.eligibilities, SubmitterId(s.bidders, p)).value, bid.demands);
    }
  }

  // ----- eligibility by id against eligibility by position -----

  /** Ask for n licences in all, territory by territory. */
  function Greedy(s: Setup, n: nat, count: nat): (demands: seq<Demand>)
    requires count <= s.TerritoryCount()
    ensures |demands| == count
    ensures forall i :: 0 <= i < count ==>
              demands[i].territoryId == s.territories[i].id && demands[i].quantity <= |s.territories[i].channels|
  {
    if count == 0 then []
    else
      var before := Greedy(s, n, count - 1);
      var left := if Sum(Quantities(before)) <= n then n - Sum(Quantities(before)) else 0;
      before + [Demand(s.territories[count - 1].id, Min(left, |s.territories[count - 1].channels|), 0.0)]
  }

  lemma {:induction false} GreedyTotal(s: Setup, n: nat, count: nat)
    requires count <= s.TerritoryCount()
    ensures Sum(Quantities(Greedy(s, n, count))) == Min(n, Sum(s.Supply()[..count]))
  {
    if count > 0 {
      GreedyTotal(s, n, count - 1);
      var before, all := Greedy(s, n, count - 1), Greedy(s, n, count);
      assert Quantities(all) == Quantities(before) + [all[count - 1].quantity];
      SumAppend(Quantities(before), all[count - 1].quantity);
      assert s.Supply()[..count] == s.Supply()[..count - 1] + [s.Supply()[count - 1]];
      SumAppend(s.Supply()[..count - 1], s.Supply()[count - 1]);
    }
  }

  lemma GreedyWithin(s: Setup, n: nat)
    requires Distinct(s.TerritoryIds())
    ensures DemandsWithin(s, Greedy(s, n, s.TerritoryCount()))
  {
    var demands := Greedy(s, n, s.TerritoryCount());
    assert Ids(demands) == s.TerritoryIds();
    forall i | 0 <= i < |demands|
      ensures Position(s.TerritoryIds(), demands[i].territoryId) == i
    {
      PositionOfDistinct(s.TerritoryIds(), i);
    }
  }

  lemma BudgetSuffices(s: Setup, a: State, limit: nat, share: nat, demands: seq<Demand>)
    requires Rows(s, a, |a.licences|) && a.round == 1
    requires Distinct(s.TerritoryIds()) && Sum(s.Supply()) < WORD
    requires Min(limit, Sum(s.Supply())) <= share
    requires DemandsCheck(s, a, limit, demands, 0) == Success
    ensures Sum(Quantities(demands)) <= share
  {
    ChecksAreExact(s, a, limit, demands);
    WithinTotals(s, demands);
    assert demands == [] ==> Quantities(demands) == [];
  }

  lemma GreedyOverspends(s: Setup, a: State, limit: nat)
    requires Rows(s, a, |a.licences|) && a.round == 1
    requires Distinct(s.TerritoryIds()) && Sum(s.Supply()) < WORD
    ensures var demands := Greedy(s, limit, s.TerritoryCount());
            && DemandsCheck(s, a, limit, demands, 0) == Success
            && Sum(Quantities(demands)) == Min(limit, Sum(s.Supply()))
  {
    var demands := Greedy(s, limit, s.TerritoryCount());
    GreedyWithin(s, limit);
    GreedyTotal(s, limit, s.TerritoryCount());
    assert s.Supply()[..s.TerritoryCount()] == s.Supply();
    hide Greedy;
    ChecksAreExact(s, a, limit, demands);
  }

  /**
   * In round 1 a bid is limited by the eligibility found by bidder id. Every accepted bid stays within a
   * bidder's own share exactly when that limit, or the whole supply, does.
   */
  lemma BudgetIsExact(s: Setup, a: State, limit: nat, share: nat)
    requires Rows(s, a, |a.licences|) && a.round == 1
    requires Distinct(s.TerritoryIds()) && Sum(s.Supply()) < WORD
    ensures (forall demands :: DemandsCheck(s, a, limit, demands, 0) == Success ==> Sum(Quantities(demands)) <= share)
            <==> Min(limit, Sum(s.Supply())) <= share
  {
    GreedyOverspends(s, a, limit);
    if Min(limit, Sum(s.Supply())) <= share {
      forall demands | DemandsCheck(s, a, limit, demands, 0) == Success ensures Sum(Quantities(demands)) <= share {
        BudgetSuffices(s, a, limit, share, demands);
      }
    }
  }
}
