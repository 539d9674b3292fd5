/** Queue order: price points, the comparators and the sort (demo/chaincode/fpc/bid.cpp and evaluate.cpp). */
module BidQueue {
  import opened Tally
  import opened BidLoop

  /** Where a bid lies between the round's minimum and clock price, in rounded percent. */
  function PricePoint(price: real, minPrice: real, clockPrice: real): (p: nat)
    requires minPrice < clockPrice && minPrice <= price <= clockPrice
    ensures p <= 100
    ensures p as real - 0.5 <= (price - minPrice) / (clockPrice - minPrice) * 100.0 < p as real + 0.5
    ensures price == minPrice ==> p == 0
    ensures price == clockPrice ==> p == 100
  {
    PricePointBounds(price, minPrice, clockPrice);
    ((price - minPrice) / (clockPrice - minPrice) * 100.0 + 0.5).Floor
  }

  lemma PricePointBounds(price: real, minPrice: real, clockPrice: real)
    requires minPrice < clockPrice && minPrice <= price <= clockPrice
    ensures 0.0 <= (price - minPrice) / (clockPrice - minPrice) <= 1.0
    ensures price == minPrice ==> (price - minPrice) / (clockPrice - minPrice) == 0.0
    ensures price == clockPrice ==> (price - minPrice) / (clockPrice - minPrice) == 1.0
  {
    var x, d := price - minPrice, clockPrice - minPrice;
    var r := x / d;
    assert r * d == x;
    assert r < 0.0 ==> r * d < 0.0;
    assert r > 0.0 ==> r * d > 0.0;
    assert r > 1.0 ==> r * d > d;
    assert r < 1.0 ==> r * d < d;
  }

  /** A higher bid never has a lower price point. */
  lemma PricePointMonotone(low: real, high: real, minPrice: real, clockPrice: real)
    requires minPrice < clockPrice && minPrice <= low <= high <= clockPrice
    ensures PricePoint(low, minPrice, clockPrice) <= PricePoint(high, minPrice, clockPrice)
  {
    var d := clockPrice - minPrice;
    var x, y := (low - minPrice) / d, (high - minPrice) / d;
    assert x * d == low - minPrice && y * d == high - minPrice;
    assert x > y ==> x * d > y * d;
  }

  predicate ByDecreasing(x: QueuedBid, y: QueuedBid) {
    if x.pricePoint > y.pricePoint then true
    else if x.pricePoint < y.pricePoint then false
    else x.tieBreak > y.tieBreak
  }

  predicate ByIncreasing(x: QueuedBid, y: QueuedBid) {
    !ByDecreasing(x, y)
  }

  predicate Tie(x: QueuedBid, y: QueuedBid) {
    x.pricePoint == y.pricePoint && x.tieBreak == y.tieBreak
  }

  predicate AscendingBids(queue: seq<QueuedBid>) {
    forall i, j :: 0 <= i < j < |queue| ==> ByIncreasing(queue[i], queue[j])
  }

  /** Lower price points first, and among equal ones the lower random value. */
  predicate CheapestFirst(queue: seq<QueuedBid>) {
    forall i, j :: 0 <= i < j < |queue| ==>
      || queue[i].pricePoint < queue[j].pricePoint
      || (queue[i].pricePoint == queue[j].pricePoint && queue[i].tieBreak <= queue[j].tieBreak)
  }

  /** Ascending by the comparator is cheapest first. */
  lemma AscendingIsCheapestFirst(queue: seq<QueuedBid>)
    ensures AscendingBids(queue) <==> CheapestFirst(queue)
  {
    forall i, j | 0 <= i < j < |queue|
      ensures ByIncreasing(queue[i], queue[j]) <==>
              || queue[i].pricePoint < queue[j].pricePoint
              || (queue[i].pricePoint == queue[j].pricePoint && queue[i].tieBreak <= queue[j].tieBreak)
    {
    }
  }

  predicate NoTies(queue: seq<QueuedBid>) {
    forall i, j :: 0 <= i < j < |queue| ==> !Tie(queue[i], queue[j])
  }

  /** The comparator never holds both ways between two entries of the queue. */
  predicate Asymmetric(queue: seq<QueuedBid>) {
    forall i, j :: 0 <= i < j < |queue| ==> !(ByIncreasing(queue[i], queue[j]) && ByIncreasing(queue[j], queue[i]))
  }

  /** The comparator of the source orders any bids totally, but it also holds of a bid and itself. */
  lemma ComparatorIsTotalPreorder(x: QueuedBid, y: QueuedBid, z: QueuedBid)
    ensures ByIncreasing(x, x)
    ensures ByIncreasing(x, y) || ByIncreasing(y, x)
    ensures ByIncreasing(x, y) && ByIncreasing(y, z) ==> ByIncreasing(x, z)
    ensures ByIncreasing(x, y) && ByIncreasing(y, x) <==> Tie(x, y)
  {
  }

  /** Between two entries of a queue it holds one way only exactly when the queue has no ties. */
  lemma ComparatorNeedsDistinctKeys(queue: seq<QueuedBid>)
    ensures Asymmetric(queue) <==> NoTies(queue)
  {
    forall i, j | 0 <= i < j < |queue|
      ensures ByIncreasing(queue[i], queue[j]) && ByIncreasing(queue[j], queue[i]) <==> Tie(queue[i], queue[j])
    {
      ComparatorIsTotalPreorder(queue[i], queue[j], queue[i]);
    }
  }

  function InsertBid(x: QueuedBid, queue: seq<QueuedBid>): (r: seq<QueuedBid>)
    ensures multiset(r) == multiset(queue) + multiset{x}
  {
    if queue == [] || ByIncreasing(x, queue[0]) then [x] + queue
    else
      assert queue == [queue[0]] + queue[1..];
      [queue[0]] + InsertBid(x, queue[1..])
  }

  lemma MembersOf(q: seq<QueuedBid>, r: seq<QueuedBid>, x: QueuedBid)
    requires multiset(r) == multiset(q) + multiset{x}
    ensures forall y :: y in r <==> y == x || y in q
  {
    forall y ensures y in r <==> y == x || y in q {
      assert y in r <==> y in multiset(r);
      assert y in q <==> y in multiset(q);
    }
  }

  lemma ConsAscending(x: QueuedBid, rest: seq<QueuedBid>)
    requires AscendingBids(rest)
    requires forall y :: y in rest ==> ByIncreasing(x, y)
    ensures AscendingBids([x] + rest)
  {
    var s := [x] + rest;
    forall i, j | 0 <= i < j < |s| ensures ByIncreasing(s[i], s[j]) {
      assert s[j] == rest[j - 1] && rest[j - 1] in rest;
      if i > 0 {
        assert s[i] == rest[i - 1];
      }
    }
  }

  lemma {:induction false} InsertBidAscending(x: QueuedBid, queue: seq<QueuedBid>)
    requires AscendingBids(queue)
    ensures AscendingBids(InsertBid(x, queue))
  {
    if queue == [] || ByIncreasing(x, queue[0]) {
      ConsAscending(x, queue);
    } else {
      InsertBidAscending(x, queue[1..]);
      MembersOf(queue[1..], InsertBid(x, queue[1..]), x);
      ConsAscending(queue[0], InsertBid(x, queue[1..]));
    }
  }

  /** Some ascending arrangement of the queue; with ties the source's sort may pick another one. */
  method SortBids(queue: seq<QueuedBid>) returns (sorted: seq<QueuedBid>)
    ensures AscendingBids(sorted) && CheapestFirst(sorted)
    ensures multiset(sorted) == multiset(queue)
  {
    sorted := [];
    for i := 0 to |queue|
      invariant AscendingBids(sorted)
      invariant multiset(sorted) == multiset(queue[..i])
    {
      InsertBidAscending(queue[i], sorted);
      assert queue[..i + 1] == queue[..i] + [queue[i]];
      sorted := InsertBid(queue[i], sorted);
    }
    assert queue[..|queue|] == queue;
    AscendingIsCheapestFirst(sorted);
  }

  lemma DropHead(q: seq<QueuedBid>)
    requires q != []
    ensures q == [q[0]] + q[1..]
    ensures multiset(q[1..]) == multiset(q) - multiset{q[0]}
  {
    assert q == [q[0]] + q[1..];
  }

  lemma HeadsAgree(q: seq<QueuedBid>, r: seq<QueuedBid>)
    requires q != [] && r != []
    requires r[0] in q && q[0] in r
    requires AscendingBids(q) && AscendingBids(r) && NoTies(q)
    ensures q[0] == r[0]
  {
    var i :| 0 <= i < |q| && q[i] == r[0];
    var j :| 0 <= j < |r| && r[j] == q[0];
    assert i > 0 ==> ByIncreasing(q[0], q[i]) && !Tie(q[0], q[i]);
    assert j > 0 ==> ByIncreasing(r[0], r[j]);
  }

  /** Without ties the ascending order is unique, so every sort by the comparator gives the same queue. */
  lemma {:induction false} AscendingIsUnique(q: seq<QueuedBid>, r: seq<QueuedBid>)
    requires multiset(q) == multiset(r)
    requires AscendingBids(q) && AscendingBids(r) && NoTies(q)
    ensures q == r
  {
    assert |q| == |multiset(q)| == |multiset(r)| == |r|;
    if q != [] {
      RearrangedMembers(q, r);
      HeadsAgree(q, r);
      DropHead(q);
      DropHead(r);
      AscendingIsUnique(q[1..], r[1..]);
    }
  }

  // ----- rearranging a queue keeps it complete -----

  lemma {:induction false} CellCount(queue: seq<QueuedBid>, i: nat, j: nat)
    requires i < j < |queue|
    ensures multiset(queue)[queue[i]] + (if queue[j] != queue[i] then multiset(queue)[queue[j]] else 0) >= 2
  {
    assert queue == queue[..i] + [queue[i]] + queue[i + 1..j] + [queue[j]] + queue[j + 1..];
  }

  lemma {:induction false} SingleEntries(queue: seq<QueuedBid>, x: QueuedBid)
    requires DistinctCells(queue)
    ensures multiset(queue)[x] <= 1
  {
    if queue != [] {
      DropHead(queue);
      assert forall i :: 0 <= i < |queue[1..]| ==> queue[1..][i] == queue[i + 1];
      SingleEntries(queue[1..], x);
      if queue[0] == x {
        assert x !in queue[1..];
      }
    }
  }

  lemma RearrangedMembers(q: seq<QueuedBid>, r: seq<QueuedBid>)
    requires multiset(q) == multiset(r)
    ensures forall x :: x in q <==> x in r
  {
    forall x ensures x in q <==> x in r {
      assert x in q <==> x in multiset(q);
      assert x in r <==> x in multiset(r);
    }
  }

  lemma RearrangedDistinct(q: seq<QueuedBid>, r: seq<QueuedBid>)
    requires multiset(q) == multiset(r) && DistinctCells(q)
    ensures DistinctCells(r)
  {
    RearrangedMembers(q, r);
    forall i, j | 0 <= i < j < |r| ensures r[i].bidder != r[j].bidder || r[i].territory != r[j].territory {
      CellCount(r, i, j);
      SingleEntries(q, r[i]);
      assert r[i] in q && r[j] in q;
    }
  }

  /** Any rearrangement of a complete queue is a complete queue. */
  lemma RearrangedQueue(c: Context, w: Board, q: seq<QueuedBid>, r: seq<QueuedBid>)
    requires ContextOk(c) && Shape(c, w) && QueueInv(c, w, q)
    requires multiset(q) == multiset(r)
    ensures QueueInv(c, w, r)
  {
    RearrangedMembers(q, r);
    RearrangedDistinct(q, r);
    hide ContextOk, Shape;
    forall i | 0 <= i < |r|
      ensures r[i].bidder < |c.eligibility| && r[i].territory < |c.supply|
      ensures r[i].demand == c.target[r[i].bidder][r[i].territory]
    {
      assert r[i] in q;
    }
    forall b: nat, t: nat ensures Queued(q, b, t) <==> Queued(r, b, t) {
      if Queued(q, b, t) {
        var i :| 0 <= i < |q| && q[i].bidder == b && q[i].territory == t;
        assert q[i] in r;
      }
      if Queued(r, b, t) {
        var i :| 0 <= i < |r| && r[i].bidder == b && r[i].territory == t;
        assert r[i] in q;
      }
    }
  }
}
