/** The search loops of StaticAuctionState (demo/chaincode/fpc/auction-state.cpp). */
module Lookups {
  import opened Basics
  import opened AuctionSetup

  method GetTerritoryIndex(s: Setup, id: nat) returns (t: int)
    ensures t == -1 <==> id !in s.TerritoryIds()
    ensures t != -1 ==> 0 <= t == Position(s.TerritoryIds(), id) < s.TerritoryCount()
  {
    for i := 0 to |s.territories|
      invariant id !in s.TerritoryIds()[..i]
    {
      if s.territories[i].id == id {
        assert s.TerritoryIds()[i] == id;
        assert forall j :: 0 <= j < i ==> s.TerritoryIds()[..i][j] == s.TerritoryIds()[j];
        return i;
      }
      assert s.TerritoryIds()[..i + 1] == s.TerritoryIds()[..i] + [s.TerritoryIds()[i]];
    }
    assert s.TerritoryIds()[..|s.territories|] == s.TerritoryIds();
    return -1;
  }

  predicate FirstOf(bidders: seq<Bidder>, p: Principal, i: int) {
    0 <= i < |bidders| && bidders[i].principal == p && forall j :: 0 <= j < i ==> bidders[j].principal != p
  }

  method FromPrincipalToBidderId(s: Setup, p: Principal) returns (id: nat)
    ensures id == SubmitterId(s.bidders, p)
    ensures (exists i :: FirstOf(s.bidders, p, i) && id == s.bidders[i].id)
            || (id == 0 && forall j :: 0 <= j < |s.bidders| ==> s.bidders[j].principal != p)
  {
    for i := 0 to |s.bidders|
      invariant forall j :: 0 <= j < i ==> s.bidders[j].principal != p
    {
      if s.bidders[i].principal == p {
        SubmitterExactly(s.bidders, p, i);
        assert FirstOf(s.bidders, p, i);
        return s.bidders[i].id;
      }
    }
    SubmitterExactly(s.bidders, p, |s.bidders|);
    return 0;
  }

  method FromBidderIdToBidderIndex(s: Setup, id: nat) returns (b: int)
    ensures b == -1 <==> id !in BidderIds(s)
    ensures b != -1 ==> 0 <= b == Position(BidderIds(s), id) < s.BidderCount()
  {
    for i := 0 to |s.bidders|
      invariant id !in BidderIds(s)[..i]
    {
      if s.bidders[i].id == id {
        assert BidderIds(s)[i] == id;
        assert forall j :: 0 <= j < i ==> BidderIds(s)[..i][j] == BidderIds(s)[j];
        return i;
      }
      assert BidderIds(s)[..i + 1] == BidderIds(s)[..i] + [BidderIds(s)[i]];
    }
    assert BidderIds(s)[..|s.bidders|] == BidderIds(s);
    return -1;
  }

  predicate FirstEntry(es: seq<Eligibility>, id: nat, i: int) {
    0 <= i < |es| && es[i].bidderId == id && forall j :: 0 <= j < i ==> es[j].bidderId != id
  }

  method GetEligibilityNumber(s: Setup, id: nat) returns (n: Option<nat>)
    ensures n == EligibilityNumber(s.eligibilities, id)
    ensures n.None? <==> forall j :: 0 <= j < |s.eligibilities| ==> s.eligibilities[j].bidderId != id
    ensures n.Some? ==> exists i :: FirstEntry(s.eligibilities, id, i) && n.value == s.eligibilities[i].number
  {
    for i := 0 to |s.eligibilities|
      invariant forall j :: 0 <= j < i ==> s.eligibilities[j].bidderId != id
    {
      if s.eligibilities[i].bidderId == id {
        FirstEligibility(s.eligibilities, i);
        assert FirstEntry(s.eligibilities, id, i);
        return Some(s.eligibilities[i].number);
      }
    }
    NoEligibility(s.eligibilities, id);
    return None;
  }
}
