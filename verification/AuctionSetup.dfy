/**
 * The static description of a spectrum auction: territories, bidders and initial eligibilities,
 * their lookups and the creation-time check (StaticAuctionState in demo/chaincode/fpc/auction-state.cpp).
 */
module AuctionSetup {
  import opened Basics
  import opened Tally

  datatype Principal = Principal(mspId: string, dn: string)

  datatype Channel = Channel(id: nat, impairment: nat)

  datatype Territory = Territory(id: nat, highDemand: bool, minPrice: real, channels: seq<Channel>)

  datatype Bidder = Bidder(id: nat, principal: Principal)

  datatype Eligibility = Eligibility(bidderId: nat, number: nat)

  datatype Setup = Setup(
    name: string,
    territories: seq<Territory>,
    bidders: seq<Bidder>,
    eligibilities: seq<Eligibility>,
    activityPercent: nat,
    incrementPercent: nat)
  {
    function BidderCount(): nat {
      |bidders|
    }

    function TerritoryCount(): nat {
      |territories|
    }

    function TerritoryIds(): seq<nat> {
      seq(|territories|, t requires 0 <= t < |territories| => territories[t].id)
    }

    function Supply(): seq<nat> {
      seq(|territories|, t requires 0 <= t < |territories| => |territories[t].channels|)
    }

    function InitialPrices(): seq<real> {
      seq(|territories|, t requires 0 <= t < |territories| => territories[t].minPrice)
    }

    function InitialEligibilities(): seq<nat> {
      seq(|eligibilities|, i requires 0 <= i < |eligibilities| => eligibilities[i].number)
    }
  }

  /** The first position of an id, or the length of the list when the id is absent. */
  function Position(ids: seq<nat>, id: nat): (i: nat)
    ensures i <= |ids|
    ensures i < |ids| ==> ids[i] == id
    ensures forall j :: 0 <= j < i ==> ids[j] != id
    ensures i < |ids| <==> id in ids
  {
    if ids == [] then 0
    else if ids[0] == id then 0
    else
      assert forall j :: 1 <= j < |ids| ==> ids[j] == ids[1..][j - 1];
      1 + Position(ids[1..], id)
  }

  lemma PositionOfDistinct(ids: seq<nat>, i: nat)
    requires Distinct(ids) && i < |ids|
    ensures Position(ids, ids[i]) == i
  {
  }

  /** The creation-time check of the source. */
  predicate CheckValidity(s: Setup) {
    && s.name != ""
    && s.territories != []
    && (forall t, i :: 0 <= t < |s.territories| && 0 <= i < |s.territories[t].channels| ==>
          s.territories[t].channels[i].impairment <= 100)
    && s.bidders != []
    && s.eligibilities != []
    && |s.bidders| == |s.eligibilities|
    && s.activityPercent <= 100
    && s.incrementPercent <= 100
  }

  // ----- who is bidding -----

  /** The id of the first bidder with the principal, 0 when there is none. */
  function SubmitterId(bidders: seq<Bidder>, p: Principal): (id: nat)
    ensures id != 0 ==> exists i :: 0 <= i < |bidders| && bidders[i].id == id && bidders[i].principal == p
  {
    if bidders == [] then 0
    else if bidders[0].principal == p then bidders[0].id
    else
      var id := SubmitterId(bidders[1..], p);
      assert forall j :: 1 <= j < |bidders| ==> bidders[j] == bidders[1..][j - 1];
      id
  }

  /** The first bidder with the principal decides; without one the id is 0. */
  lemma {:induction false} SubmitterExactly(bidders: seq<Bidder>, p: Principal, i: nat)
    requires i <= |bidders| && (i < |bidders| ==> bidders[i].principal == p)
    requires forall j :: 0 <= j < i ==> bidders[j].principal != p
    ensures SubmitterId(bidders, p) == if i < |bidders| then bidders[i].id else 0
  {
    if i > 0 {
      SubmitterExactly(bidders[1..], p, i - 1);
    }
  }

  function BidderIds(s: Setup): (ids: seq<nat>) {
    seq(|s.bidders|, i requires 0 <= i < |s.bidders| => s.bidders[i].id)
  }

  /** The first eligibility entry naming the bidder id; the source defines no result when there is none. */
  function EligibilityNumber(es: seq<Eligibility>, id: nat): Option<nat> {
    if es == [] then None
    else if es[0].bidderId == id then Some(es[0].number)
    else EligibilityNumber(es[1..], id)
  }

  /** Every bidder has an eligibility entry; without one the lookup has no result in the source. */
  predicate Listed(s: Setup) {
    && |s.bidders| == |s.eligibilities|
    && forall i :: 0 <= i < |s.bidders| ==> EligibilityNumber(s.eligibilities, s.bidders[i].id).Some?
  }

  /**
   * What a bidder can demand in round 1, where eligibility is looked up by id and supply is a limit too, is within its
   * eligibility by position, which later rounds use.
   */
  predicate Covered(s: Setup) {
    && Listed(s)
    && forall i :: 0 <= i < |s.bidders| ==>
         Min(EligibilityNumber(s.eligibilities, s.bidders[i].id).value, Sum(s.Supply())) <= s.eligibilities[i].number
  }

  predicate Aligned(s: Setup) {
    && |s.bidders| == |s.eligibilities|
    && Distinct(BidderIds(s))
    && forall i :: 0 <= i < |s.bidders| ==> s.eligibilities[i].bidderId == s.bidders[i].id
  }

  lemma {:induction false} NoEligibility(es: seq<Eligibility>, id: nat)
    ensures EligibilityNumber(es, id).None? <==> forall j :: 0 <= j < |es| ==> es[j].bidderId != id
  {
    if es != [] {
      assert forall j :: 1 <= j < |es| ==> es[j] == es[1..][j - 1];
      NoEligibility(es[1..], id);
    }
  }

  /** The first entry of a bidder decides. */
  lemma {:induction false} FirstEligibility(es: seq<Eligibility>, i: nat)
    requires i < |es|
    requires forall j :: 0 <= j < i ==> es[j].bidderId != es[i].bidderId
    ensures EligibilityNumber(es, es[i].bidderId) == Some(es[i].number)
  {
    if i > 0 {
      FirstEligibility(es[1..], i - 1);
    }
  }

  /** Eligibilities listed in bidder order, with distinct ids, are the same by id and by position. */
  lemma AlignedIsCovered(s: Setup)
    requires Aligned(s)
    ensures forall i :: 0 <= i < |s.bidders| ==>
              EligibilityNumber(s.eligibilities, s.bidders[i].id) == Some(s.eligibilities[i].number)
    ensures Covered(s)
  {
    forall i | 0 <= i < |s.bidders|
      ensures EligibilityNumber(s.eligibilities, s.bidders[i].id) == Some(s.eligibilities[i].number)
    {
      forall j | 0 <= j < i ensures s.eligibilities[j].bidderId != s.eligibilities[i].bidderId {
        assert BidderIds(s)[j] != BidderIds(s)[i];
      }
      FirstEligibility(s.eligibilities, i);
    }
  }

  /** The hypotheses under which the auction is studied; see the README for which ones the source checks. */
  predicate WellFormed(s: Setup) {
    && CheckValidity(s)
    && Distinct(s.TerritoryIds())
    && (forall t :: 0 <= t < |s.territories| ==> s.territories[t].minPrice >= 0.0)
    && Sum(s.Supply()) < WORD
    && Covered(s)
  }
}
