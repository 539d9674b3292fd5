/**
 * The posted price of a territory that enters a later round below supply: where its excess demand ends above zero, the
 * price is the clock price exactly when excess demand was zero on the way (demo/chaincode/fpc/evaluate.cpp).
 */
module AuctionPrices {
  import opened Tally
  import opened AuctionSetup
  import opened BidLoop
  import opened Bids
  import opened Auction
  import opened AuctionRuns

  /** The boards that the bid-processing rule goes through, from the first to the last. */
  ghost function Trail(c: Context, w: Board, queue: seq<QueuedBid>): (trail: seq<Board>)
    requires Live(c, w, queue)
    ensures trail != [] && trail[0] == w
    decreases if Shape(c, w) && ContextOk(c) then Distance(w.held, c.target) else 0
  {
    var k := FirstProcessable(w, queue);
    if k == |queue| then [w]
    else
      QueueEntry(c, w, queue, k);
      ApplyKeepsQueueInv(c, w, queue, k);
      ApplyShortensDistance(c, w, queue[k]);
      [w] + Trail(c, Apply(w, queue[k], c.clock), QueueAfter(w, queue, k))
  }

  /** One step further, both the trail and the settlement go on from the next board. */
  lemma TrailGoesOn(c: Context, w: Board, queue: seq<QueuedBid>, k: nat)
    requires Live(c, w, queue) && k == FirstProcessable(w, queue) < |queue|
    ensures queue[k].territory < |c.clock|
    ensures var w', rest := Apply(w, queue[k], c.clock), QueueAfter(w, queue, k);
            && Live(c, w', rest) && Distance(w'.held, c.target) < Distance(w.held, c.target)
            && Trail(c, w, queue) == [w] + Trail(c, w', rest)
            && Settle(c, w, queue) == Settle(c, w', rest)
  {
    QueueEntry(c, w, queue, k);
    ApplyKeepsQueueInv(c, w, queue, k);
    ApplyShortensDistance(c, w, queue[k]);
    hide ContextOk, Shape, QueueInv, Apply, Distance, QueueAfter;
  }

  lemma {:induction false} TrailEnds(c: Context, w: Board, queue: seq<QueuedBid>)
    requires Live(c, w, queue)
    ensures var trail := Trail(c, w, queue); trail[|trail| - 1] == Settle(c, w, queue).board
    decreases Distance(w.held, c.target)
  {
    var k := FirstProcessable(w, queue);
    if k < |queue| {
      TrailGoesOn(c, w, queue, k);
      hide Live, Apply, Distance, QueueAfter, Trail, Settle;
      TrailEnds(c, Apply(w, queue[k], c.clock), QueueAfter(w, queue, k));
    }
  }

  /** Excess demand of a territory is zero on some board. */
  predicate Touches(trail: seq<Board>, t: nat) {
    exists i :: 0 <= i < |trail| && t < |trail[i].excess| && trail[i].excess[t] == 0
  }

  /**
   * Before excess demand has been zero, the price is still last round's; afterwards excess demand does not fall below
   * zero, and positive excess demand is at the clock price.
   */
  predicate PriceState(c: Context, w: Board, t: nat, touched: bool)
    requires ContextOk(c) && Shape(c, w) && t < |c.supply|
  {
    if touched then w.excess[t] >= 0 && (w.excess[t] > 0 ==> w.posted[t] == c.clock[t])
    else w.excess[t] != 0 && w.posted[t] == c.posted0[t]
  }

  lemma StepKeepsPriceState(c: Context, w: Board, q: QueuedBid, t: nat, touched: bool)
    requires ContextOk(c) && Shape(c, w) && t < |c.supply|
    requires InRange(w, q) && Processable(w, q) && PriceState(c, w, t, touched)
    ensures Shape(c, Apply(w, q, c.clock))
    ensures var w' := Apply(w, q, c.clock); PriceState(c, w', t, touched || w'.excess[t] == 0)
  {
    ApplyEffect(c, w, q);
    hide ContextOk;
  }

  lemma TouchesLater(w: Board, rest: seq<Board>, t: nat)
    ensures Touches([w] + rest, t) <==> (t < |w.excess| && w.excess[t] == 0) || Touches(rest, t)
  {
    var trail := [w] + rest;
    assert trail[0] == w;
    assert forall i :: 0 <= i < |rest| ==> trail[i + 1] == rest[i];
    if i :| 0 <= i < |trail| && t < |trail[i].excess| && trail[i].excess[t] == 0 {
      assert i > 0 ==> rest[i - 1] == trail[i];
    }
  }

  lemma {:induction false} PriceStateAtEnd(c: Context, w: Board, queue: seq<QueuedBid>, t: nat, touched: bool)
    requires Live(c, w, queue) && t < |c.supply|
    requires PriceState(c, w, t, touched) && (w.excess[t] == 0 ==> touched)
    ensures var f := Settle(c, w, queue).board;
            Shape(c, f) && PriceState(c, f, t, touched || Touches(Trail(c, w, queue), t))
    decreases Distance(w.held, c.target)
  {
    var k := FirstProcessable(w, queue);
    if k == |queue| {
      assert Trail(c, w, queue) == [w] + [];
      TouchesLater(w, [], t);
    } else {
      QueueEntry(c, w, queue, k);
      ApplyKeepsQueueInv(c, w, queue, k);
      ApplyShortensDistance(c, w, queue[k]);
      StepKeepsPriceState(c, w, queue[k], t, touched);
      var w', rest := Apply(w, queue[k], c.clock), QueueAfter(w, queue, k);
      PriceStateAtEnd(c, w', rest, t, touched || w'.excess[t] == 0);
      TouchesLater(w, Trail(c, w', rest), t);
      hide Touches;
      assert w'.excess[t] == 0 ==> Touches(Trail(c, w', rest), t) by { FirstTouches(Trail(c, w', rest), t); }
    }
  }

  lemma FirstTouches(trail: seq<Board>, t: nat)
    requires trail != [] && t < |trail[0].excess|
    ensures trail[0].excess[t] == 0 ==> Touches(trail, t)
  {
  }

  // ----- the step that jumps over zero -----

  /** From board i to the next one, excess demand goes from below zero to above it, and it stays above. */
  predicate JumpsAt(trail: seq<Board>, t: nat, i: nat) {
    && i + 1 < |trail| && t < |trail[i].excess| && trail[i].excess[t] < 0
    && forall j :: i < j < |trail| ==> t < |trail[j].excess| && trail[j].excess[t] > 0
  }

  predicate AllUp(trail: seq<Board>, t: nat) {
    forall i :: 0 <= i < |trail| ==> t < |trail[i].excess| && trail[i].excess[t] >= 0
  }

  lemma UpNext(c: Context, w: Board, q: QueuedBid, t: nat)
    requires ContextOk(c) && Shape(c, w) && t < |c.supply| && w.excess[t] >= 0 && InRange(w, q) && Processable(w, q)
    ensures var w' := Apply(w, q, c.clock); t < |w'.excess| && w'.excess[t] >= 0
  {
    ApplyEffect(c, w, q);
    hide ContextOk;
  }

  /** Once excess demand is not negative it stays so. */
  lemma {:induction false} StaysUp(c: Context, w: Board, queue: seq<QueuedBid>, t: nat)
    requires Live(c, w, queue) && t < |c.supply| && w.excess[t] >= 0
    ensures AllUp(Trail(c, w, queue), t)
    decreases Distance(w.held, c.target)
  {
    var k := FirstProcessable(w, queue);
    if k < |queue| {
      QueueEntry(c, w, queue, k);
      ApplyKeepsQueueInv(c, w, queue, k);
      ApplyShortensDistance(c, w, queue[k]);
      UpNext(c, w, queue[k], t);
      hide ContextOk, QueueInv, Apply, Distance;
      StaysUp(c, Apply(w, queue[k], c.clock), QueueAfter(w, queue, k), t);
    }
  }

  /** A trail from below zero to above it without touching zero has one jump. */
  lemma {:induction false} OneJump(c: Context, w: Board, queue: seq<QueuedBid>, t: nat)
    requires Live(c, w, queue) && t < |c.supply| && w.excess[t] < 0
    requires !Touches(Trail(c, w, queue), t) && t < |Settle(c, w, queue).board.excess|
    requires Settle(c, w, queue).board.excess[t] > 0
    ensures exists i: nat :: JumpsAt(Trail(c, w, queue), t, i)
    decreases Distance(w.held, c.target)
  {
    var k := FirstProcessable(w, queue);
    QueueEntry(c, w, queue, k);
    ApplyKeepsQueueInv(c, w, queue, k);
    ApplyShortensDistance(c, w, queue[k]);
    var w', rest := Apply(w, queue[k], c.clock), QueueAfter(w, queue, k);
    var tail := Trail(c, w', rest);
    TouchesLater(w, tail, t);
    assert Trail(c, w, queue) == [w] + tail;
    hide Touches, JumpsAt, Trail, Settle, AllUp;
    hide Shape, ContextOk, QueueInv, Apply, Distance;
    if w'.excess[t] < 0 {
      OneJump(c, w', rest, t);
      var i: nat :| JumpsAt(tail, t, i);
      LaterJump(w, tail, t, i);
    } else {
      StaysUp(c, w', rest, t);
      JumpHere(w, tail, t);
    }
  }

  lemma LaterJump(w: Board, tail: seq<Board>, t: nat, i: nat)
    requires JumpsAt(tail, t, i)
    ensures JumpsAt([w] + tail, t, i + 1)
  {
    assert forall j :: 0 <= j < |tail| ==> ([w] + tail)[j + 1] == tail[j];
  }

  lemma JumpHere(w: Board, tail: seq<Board>, t: nat)
    requires t < |w.excess| && w.excess[t] < 0 && tail != [] && !Touches(tail, t)
    requires AllUp(tail, t)
    ensures JumpsAt([w] + tail, t, 0)
  {
    var trail := [w] + tail;
    assert forall j :: 0 < j < |trail| ==> trail[j] == tail[j - 1];
  }

  // ----- the round -----

  /**
   * A territory enters a round below supply and ends it with excess demand. Its price is the clock price if excess
   * demand was zero on some board, and last round's posted price otherwise; in that case one step jumped over zero and
   * excess demand stayed positive after it.
   */
  lemma EndPriceExactly(c: Context, w: Board, queue: seq<QueuedBid>, t: nat)
    requires Live(c, w, queue) && t < |c.supply|
    requires w.excess[t] < 0 && w.posted[t] == c.posted0[t]
    ensures var f, trail := Settle(c, w, queue).board, Trail(c, w, queue);
            && Shape(c, f)
            && (f.excess[t] > 0 ==> f.posted[t] == if Touches(trail, t) then c.clock[t] else c.posted0[t])
            && (f.excess[t] > 0 && !Touches(trail, t) ==> exists i: nat :: JumpsAt(trail, t, i))
  {
    PriceStateAtEnd(c, w, queue, t, false);
    if Settle(c, w, queue).board.excess[t] > 0 && !Touches(Trail(c, w, queue), t) {
      OneJump(c, w, queue, t);
    }
  }

  /**
   * The same for a round of an auction: excess demand at the end is at the clock price exactly when it was zero on the
   * way, or when the clock price is last round's posted price anyway.
   */
  lemma MissesClockExactly(s: Setup, a: State, queue: seq<QueuedBid>, t: nat)
    requires Evaluable(s, a) && a.round > 1 && CanSettle(s, a)
    requires Live(ContextOf(s, a), OpeningBoard(s, a), queue)
    requires t < s.TerritoryCount() && |a.excess[a.round - 1]| == s.TerritoryCount() && a.excess[a.round - 1][t] < 0
    ensures var a' := RegularRound(s, a, queue);
            var trail := Trail(ContextOf(s, a), OpeningBoard(s, a), queue);
            && |a'.excess[a.round]| == |a'.posted[a.round]| == |a.clock[a.round]| == s.TerritoryCount()
            && (a'.excess[a.round][t] > 0 ==>
                  (a'.posted[a.round][t] == a.clock[a.round][t] <==>
                   Touches(trail, t) || a.posted[a.round - 1][t] == a.clock[a.round][t]))
  {
    hide Evaluable, Live, Settle, Trail, Touches, JumpsAt;
    EndPriceExactly(ContextOf(s, a), OpeningBoard(s, a), queue, t);
  }
}
