/** Building the queue of changed demands of a regular round (demo/chaincode/fpc/evaluate.cpp). */
module Enqueue {
  import opened Tally
  import opened Basics
  import opened AuctionSetup
  import opened Lookups
  import opened BidLoop
  import opened Bids
  import opened BidQueue

  /** Values that the evaluation draws at random, by bidder and position in its demand list. */
  type Oracle = (nat, nat) -> nat

  /** Where a demand list mentions a territory. */
  function Rank(s: Setup, demands: seq<Demand>, t: nat): nat
    requires t < s.TerritoryCount()
  {
    Position(Ids(demands), s.TerritoryIds()[t])
  }

  predicate HasTerritory(entries: seq<QueuedBid>, t: nat) {
    exists k :: 0 <= k < |entries| && entries[k].territory == t
  }

  /** The price point follows the source's formula wherever that formula is defined. */
  predicate PointedAt(q: QueuedBid, minPrices: seq<real>, clockPrices: seq<real>) {
    && q.territory < |minPrices| == |clockPrices|
    && var low, high := minPrices[q.territory], clockPrices[q.territory];
       low < high && low <= q.demand.price <= high ==> q.pricePoint == PricePoint(q.demand.price, low, high)
  }

  /** Ties are broken by the value drawn for the bidder and the territory. */
  predicate Drawn(q: QueuedBid, random: Oracle) {
    q.tieBreak == random(q.bidder, q.territory)
  }

  predicate AllPointed(queue: seq<QueuedBid>, minPrices: seq<real>, clockPrices: seq<real>, random: Oracle) {
    forall k :: 0 <= k < |queue| ==> PointedAt(queue[k], minPrices, clockPrices) && Drawn(queue[k], random)
  }

  /** A queued change of one bidder's holding, mentioned at a given position of its list or later. */
  predicate EntryOk(s: Setup, i: nat, demands: seq<Demand>, held: seq<nat>, fallback: seq<real>, from: nat,
                    e: QueuedBid)
    requires |held| == |fallback| == s.TerritoryCount()
  {
    && e.bidder == i && e.territory < s.TerritoryCount()
    && Rank(s, demands, e.territory) >= from
    && e.demand == TargetRow(s, demands, fallback)[e.territory]
    && held[e.territory] != e.demand.quantity
  }

  predicate DistinctTerritories(entries: seq<QueuedBid>) {
    forall k, l :: 0 <= k < l < |entries| ==> entries[k].territory != entries[l].territory
  }

  predicate Changes(s: Setup, demands: seq<Demand>, held: seq<nat>, fallback: seq<real>, t: nat)
    requires |held| == |fallback| == s.TerritoryCount() && t < s.TerritoryCount()
  {
    held[t] != TargetRow(s, demands, fallback)[t].quantity
  }

  /** One bidder's changed demands, from a position of its list on, are queued exactly once. */
  predicate RowQueued(s: Setup, i: nat, demands: seq<Demand>, held: seq<nat>, fallback: seq<real>,
                      from: nat, entries: seq<QueuedBid>)
    requires |held| == |fallback| == s.TerritoryCount()
  {
    && (forall k :: 0 <= k < |entries| ==> EntryOk(s, i, demands, held, fallback, from, entries[k]))
    && DistinctTerritories(entries)
    && (forall t: nat :: t < s.TerritoryCount() && Rank(s, demands, t) >= from ==>
          (Changes(s, demands, held, fallback, t) ==> HasTerritory(entries, t)))
  }

  lemma RankOf(s: Setup, demands: seq<Demand>, fallback: seq<real>, j: nat, t: nat)
    requires Distinct(s.TerritoryIds()) && Complete(s, demands) && j < |demands| && t < s.TerritoryCount()
    requires |fallback| == s.TerritoryCount()
    ensures Rank(s, demands, t) < |demands|
    ensures Rank(s, demands, t) == j <==> t == Position(s.TerritoryIds(), demands[j].territoryId)
    ensures Rank(s, demands, t) == j ==> TargetRow(s, demands, fallback)[t] == demands[j]
  {
    assert Ids(demands)[j] == demands[j].territoryId;
    PositionOfDistinct(Ids(demands), j);
    PositionOfDistinct(s.TerritoryIds(), t);
    assert s.TerritoryIds()[t] in Ids(demands);
  }

  lemma EntriesKept(s: Setup, i: nat, demands: seq<Demand>, held: seq<nat>, fallback: seq<real>, j: nat, e: QueuedBid)
    requires |held| == |fallback| == s.TerritoryCount()
    requires EntryOk(s, i, demands, held, fallback, j + 1, e)
    ensures EntryOk(s, i, demands, held, fallback, j, e)
  {
    hide Rank, TargetRow;
  }

  lemma RowSkip(s: Setup, i: nat, demands: seq<Demand>, held: seq<nat>, fallback: seq<real>, j: nat,
                entries: seq<QueuedBid>)
    requires |held| == |fallback| == s.TerritoryCount()
    requires Distinct(s.TerritoryIds()) && Complete(s, demands) && j < |demands|
    requires RowQueued(s, i, demands, held, fallback, j + 1, entries)
    requires held[Position(s.TerritoryIds(), demands[j].territoryId)] == demands[j].quantity
    ensures RowQueued(s, i, demands, held, fallback, j, entries)
  {
    hide Complete, TargetRow, EntryOk, DistinctTerritories;
    forall k | 0 <= k < |entries| ensures EntryOk(s, i, demands, held, fallback, j, entries[k]) {
      EntriesKept(s, i, demands, held, fallback, j, entries[k]);
    }
    forall t: nat | t < s.TerritoryCount() && Rank(s, demands, t) >= j && Changes(s, demands, held, fallback, t)
      ensures HasTerritory(entries, t)
    {
      RankOf(s, demands, fallback, j, t);
    }
  }

  lemma HasTerritoryAppend(entries: seq<QueuedBid>, e: QueuedBid, t: nat)
    ensures HasTerritory(entries + [e], t) <==> HasTerritory(entries, t) || e.territory == t
  {
    var all := entries + [e];
    assert all[|entries|] == e;
    if HasTerritory(entries, t) {
      var k :| 0 <= k < |entries| && entries[k].territory == t;
      assert all[k].territory == t;
    }
  }

  lemma RowAddCovers(s: Setup, i: nat, demands: seq<Demand>, held: seq<nat>, fallback: seq<real>, j: nat,
                     entries: seq<QueuedBid>, e: QueuedBid, t: nat)
    requires |held| == |fallback| == s.TerritoryCount() && t < s.TerritoryCount()
    requires Distinct(s.TerritoryIds()) && Complete(s, demands) && j < |demands|
    requires RowQueued(s, i, demands, held, fallback, j + 1, entries)
    requires e.territory == Position(s.TerritoryIds(), demands[j].territoryId)
    requires Rank(s, demands, t) >= j && Changes(s, demands, held, fallback, t)
    ensures HasTerritory(entries + [e], t)
  {
    RankOf(s, demands, fallback, j, t);
    HasTerritoryAppend(entries, e, t);
    hide Complete, EntryOk, HasTerritory, Changes, Rank;
  }

  lemma RowAddDistinct(s: Setup, i: nat, demands: seq<Demand>, held: seq<nat>, fallback: seq<real>, j: nat,
                       entries: seq<QueuedBid>, e: QueuedBid)
    requires |held| == |fallback| == s.TerritoryCount() && e.territory < s.TerritoryCount()
    requires RowQueued(s, i, demands, held, fallback, j + 1, entries)
    requires Rank(s, demands, e.territory) == j
    ensures DistinctTerritories(entries + [e])
  {
    hide Rank, TargetRow, Changes, HasTerritory;
    forall k | 0 <= k < |entries| ensures entries[k].territory != e.territory {
      assert EntryOk(s, i, demands, held, fallback, j + 1, entries[k]);
    }
  }

  lemma RowAdd(s: Setup, i: nat, demands: seq<Demand>, held: seq<nat>, fallback: seq<real>, j: nat,
               entries: seq<QueuedBid>, e: QueuedBid)
    requires |held| == |fallback| == s.TerritoryCount()
    requires Distinct(s.TerritoryIds()) && Complete(s, demands) && j < |demands|
    requires RowQueued(s, i, demands, held, fallback, j + 1, entries)
    requires e.bidder == i && e.territory == Position(s.TerritoryIds(), demands[j].territoryId)
    requires e.territory < s.TerritoryCount()
    requires e.demand == demands[j] && held[e.territory] != demands[j].quantity
    ensures RowQueued(s, i, demands, held, fallback, j, entries + [e])
  {
    RankOf(s, demands, fallback, j, e.territory);
    RowAddDistinct(s, i, demands, held, fallback, j, entries, e);
    assert EntryOk(s, i, demands, held, fallback, j, e);
    hide Complete, TargetRow, EntryOk, DistinctTerritories;
    forall k | 0 <= k < |entries| ensures EntryOk(s, i, demands, held, fallback, j, entries[k]) {
      EntriesKept(s, i, demands, held, fallback, j, entries[k]);
    }
    forall t: nat | t < s.TerritoryCount() && Rank(s, demands, t) >= j && Changes(s, demands, held, fallback, t)
      ensures HasTerritory(entries + [e], t)
    {
      RowAddCovers(s, i, demands, held, fallback, j, entries, e, t);
    }
  }

  lemma RowNone(s: Setup, i: nat, demands: seq<Demand>, held: seq<nat>, fallback: seq<real>)
    requires |held| == |fallback| == s.TerritoryCount() && Complete(s, demands)
    ensures RowQueued(s, i, demands, held, fallback, |demands|, [])
  {
    assert forall t: nat :: t < s.TerritoryCount() ==> Rank(s, demands, t) < |demands|;
  }

  /** Queue one bidder's demands, last to first, skipping those that maintain its holding. */
  method EnqueueBidder(s: Setup, i: nat, demands: seq<Demand>, held: seq<nat>, minPrices: seq<real>,
                       clockPrices: seq<real>, random: Oracle, undefinedPoint: Oracle)
    returns (entries: seq<QueuedBid>)
    requires |held| == |minPrices| == |clockPrices| == s.TerritoryCount()
    requires Distinct(s.TerritoryIds()) && Complete(s, demands)
    ensures RowQueued(s, i, demands, held, minPrices, 0, entries)
    ensures AllPointed(entries, minPrices, clockPrices, random)
  {
    entries := [];
    RowNone(s, i, demands, held, minPrices);
    hide RowQueued;
    for j := |demands| downto 0
      invariant RowQueued(s, i, demands, held, minPrices, j, entries)
      invariant AllPointed(entries, minPrices, clockPrices, random)
    {
      var t := GetTerritoryIndex(s, demands[j].territoryId);
      assert t != -1;
      if held[t] == demands[j].quantity {
        RowSkip(s, i, demands, held, minPrices, j, entries);
      } else {
        var low, high, price := minPrices[t], clockPrices[t], demands[j].price;
        var point :=
          if low < high && low <= price <= high then PricePoint(price, low, high) else undefinedPoint(i, t);
        var e := QueuedBid(i, t, demands[j], point, random(i, t));
        RowAdd(s, i, demands, held, minPrices, j, entries, e);
        entries := entries + [e];
      }
    }
  }

  // ----- all bidders -----

  /** The changed demands of the first i bidders are queued exactly once. */
  predicate FirstQueued(c: Context, queue: seq<QueuedBid>, i: nat)
    requires ContextOk(c)
  {
    && CarriesTargets(c, queue)
    && DistinctCells(queue)
    && (forall b: nat, t: nat :: b < |c.eligibility| && t < |c.supply| ==>
          (b < i && c.held0[b][t] != c.target[b][t].quantity <==> Queued(queue, b, t)))
  }

  lemma QueuedAppend(queue: seq<QueuedBid>, entries: seq<QueuedBid>, b: nat, t: nat)
    ensures Queued(queue + entries, b, t) <==> Queued(queue, b, t) || Queued(entries, b, t)
  {
    var all := queue + entries;
    if Queued(queue, b, t) {
      var k :| 0 <= k < |queue| && queue[k].bidder == b && queue[k].territory == t;
      assert all[k] == queue[k];
    }
    if Queued(entries, b, t) {
      var k :| 0 <= k < |entries| && entries[k].bidder == b && entries[k].territory == t;
      assert all[|queue| + k] == entries[k];
    }
  }

  lemma RowCells(s: Setup, i: nat, demands: seq<Demand>, held: seq<nat>, fallback: seq<real>, entries: seq<QueuedBid>,
                 b: nat, t: nat)
    requires |held| == |fallback| == s.TerritoryCount() && t < s.TerritoryCount()
    requires RowQueued(s, i, demands, held, fallback, 0, entries)
    ensures Queued(entries, b, t) <==> b == i && held[t] != TargetRow(s, demands, fallback)[t].quantity
  {
    hide TargetRow, Rank;
    if b == i && Changes(s, demands, held, fallback, t) {
      assert HasTerritory(entries, t);
    }
    if Queued(entries, b, t) {
      var k :| 0 <= k < |entries| && entries[k].bidder == b && entries[k].territory == t;
      assert EntryOk(s, i, demands, held, fallback, 0, entries[k]);
    }
  }

  lemma NextQueued(s: Setup, c: Context, queue: seq<QueuedBid>, i: nat, demands: seq<Demand>, entries: seq<QueuedBid>)
    requires ContextOk(c) && i < |c.eligibility| && |c.supply| == s.TerritoryCount()
    requires FirstQueued(c, queue, i)
    requires c.target[i] == TargetRow(s, demands, c.posted0)
    requires RowQueued(s, i, demands, c.held0[i], c.posted0, 0, entries)
    ensures FirstQueued(c, queue + entries, i + 1)
  {
    hide TargetRow, Rank;
    forall b: nat, t: nat | b < |c.eligibility| && t < |c.supply|
      ensures b < i + 1 && c.held0[b][t] != c.target[b][t].quantity <==> Queued(queue + entries, b, t)
    {
      QueuedAppend(queue, entries, b, t);
      RowCells(s, i, demands, c.held0[i], c.posted0, entries, b, t);
    }
    forall k | 0 <= k < |queue| ensures queue[k].bidder < i {
      assert Queued(queue, queue[k].bidder, queue[k].territory);
    }
  }
}
