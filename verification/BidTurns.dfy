/**
 * The bid-processing rule as a relation between boards: what one turn may change, that nothing else is a turn, and what
 * price is posted at the end of a round (demo/chaincode/fpc/evaluate.cpp).
 */
module BidTurns {
  import opened Tally
  import opened AuctionSetup
  import opened BidLoop
  import opened Bids
  import opened Auction
  import opened AuctionRuns

  /** How many licences a bid asks for beyond those held; negative when it gives licences up. */
  function Wants(w: Board, q: QueuedBid): int
    requires InRange(w, q)
  {
    q.demand.quantity - w.held[q.bidder][q.territory]
  }

  /** The bidder has no eligibility left to ask for more, or the territory has no excess demand to give up into. */
  predicate Blocked(w: Board, q: QueuedBid)
    requires InRange(w, q)
  {
    if Wants(w, q) > 0 then w.cap[q.bidder] == 0 else w.excess[q.territory] <= 0
  }

  /** The licences moved are what the bid wants, as far as eligibility or excess demand allow. */
  predicate AsFarAsPossible(w: Board, q: QueuedBid, moved: int)
    requires InRange(w, q)
  {
    var wants, cap, excess := Wants(w, q), w.cap[q.bidder], w.excess[q.territory];
    if wants > 0 then 0 < moved <= wants && moved <= cap && (moved == wants || moved == cap)
    else wants <= moved < 0 && -moved <= excess && (moved == wants || -moved == excess)
  }

  /** The price of the bid's territory: the clock on leaving zero excess demand, the bid's on coming down to it. */
  function PriceAfter(w: Board, q: QueuedBid, moved: int, clock: seq<real>): real
    requires InRange(w, q) && q.territory < |clock|
  {
    var before, after := w.excess[q.territory], w.excess[q.territory] + moved;
    if before == 0 && after > 0 then clock[q.territory]
    else if before > 0 && after == 0 then q.demand.price
    else w.posted[q.territory]
  }

  /** Holdings, excess demand and eligibility move by one amount in one place; nothing else changes. */
  predicate Moves(w: Board, q: QueuedBid, moved: int, w': Board)
    requires InRange(w, q)
  {
    && |w'.held| == |w.held| && |w'.excess| == |w.excess| && |w'.cap| == |w.cap|
    && (forall b :: 0 <= b < |w.held| ==> |w'.held[b]| == |w.held[b]|)
    && (forall b, t :: 0 <= b < |w.held| && 0 <= t < |w.held[b]| ==>
          w'.held[b][t] == w.held[b][t] + if b == q.bidder && t == q.territory then moved else 0)
    && (forall t :: 0 <= t < |w.excess| ==> w'.excess[t] == w.excess[t] + if t == q.territory then moved else 0)
    && (forall b :: 0 <= b < |w.cap| ==> w'.cap[b] == w.cap[b] - if b == q.bidder then moved else 0)
  }

  predicate Prices(w: Board, q: QueuedBid, moved: int, clock: seq<real>, w': Board)
    requires InRange(w, q) && q.territory < |clock|
  {
    && |w'.posted| == |w.posted|
    && forall t :: 0 <= t < |w.posted| ==>
         w'.posted[t] == if t == q.territory then PriceAfter(w, q, moved, clock) else w.posted[t]
  }

  /** A bid that is met leaves the queue; otherwise the queue stays. */
  predicate Leaves(queue: seq<QueuedBid>, k: nat, met: bool, queue': seq<QueuedBid>)
    requires k < |queue|
  {
    if met then
      && |queue'| == |queue| - 1
      && (forall i :: 0 <= i < k ==> queue'[i] == queue[i])
      && (forall i :: k < i < |queue| ==> queue'[i - 1] == queue[i])
    else queue' == queue
  }

  predicate AllInRange(w: Board, queue: seq<QueuedBid>) {
    forall i :: 0 <= i < |queue| ==> InRange(w, queue[i])
  }

  /** One turn: the first bid that is not blocked is applied as far as possible. */
  predicate Turn(w: Board, queue: seq<QueuedBid>, clock: seq<real>, k: nat, moved: int, w': Board,
                 queue': seq<QueuedBid>)
    requires AllInRange(w, queue)
  {
    && k < |queue| && queue[k].territory < |clock|
    && (forall i :: 0 <= i < k ==> Blocked(w, queue[i])) && !Blocked(w, queue[k])
    && AsFarAsPossible(w, queue[k], moved)
    && Moves(w, queue[k], moved, w') && Prices(w, queue[k], moved, clock, w')
    && Leaves(queue, k, moved == Wants(w, queue[k]), queue')
  }

  // ----- a turn is determined -----

  lemma SameAmount(w: Board, q: QueuedBid, x: int, y: int)
    requires InRange(w, q) && AsFarAsPossible(w, q, x) && AsFarAsPossible(w, q, y)
    ensures x == y
  {
  }

  lemma SameBoard(w: Board, q: QueuedBid, moved: int, clock: seq<real>, x: Board, y: Board)
    requires InRange(w, q) && q.territory < |clock|
    requires Moves(w, q, moved, x) && Prices(w, q, moved, clock, x)
    requires Moves(w, q, moved, y) && Prices(w, q, moved, clock, y)
    ensures x == y
  {
    assert x.excess == y.excess && x.cap == y.cap && x.posted == y.posted;
    forall b | 0 <= b < |x.held| ensures x.held[b] == y.held[b] {
    }
  }

  lemma SameQueue(queue: seq<QueuedBid>, k: nat, met: bool, x: seq<QueuedBid>, y: seq<QueuedBid>)
    requires k < |queue| && Leaves(queue, k, met, x) && Leaves(queue, k, met, y)
    ensures x == y
  {
    if met {
      forall i | 0 <= i < |x| ensures x[i] == y[i] {
        assert i >= k ==> x[i + 1 - 1] == queue[i + 1] == y[i + 1 - 1];
      }
    }
  }

  /** From a board and a queue there is at most one turn. */
  lemma TurnIsUnique(w: Board, queue: seq<QueuedBid>, clock: seq<real>, k: nat, moved: int, x: Board,
                     xs: seq<QueuedBid>, l: nat, moved': int, y: Board, ys: seq<QueuedBid>)
    requires AllInRange(w, queue)
    requires Turn(w, queue, clock, k, moved, x, xs) && Turn(w, queue, clock, l, moved', y, ys)
    ensures k == l && moved == moved' && x == y && xs == ys
  {
    hide Moves, Prices, Leaves;
    assert k == l;
    SameAmount(w, queue[k], moved, moved');
    SameBoard(w, queue[k], moved, clock, x, y);
    SameQueue(queue, k, moved == Wants(w, queue[k]), xs, ys);
  }

  // ----- the rule takes turns -----

  lemma AppliedMoves(c: Context, w: Board, q: QueuedBid)
    requires ContextOk(c) && Shape(c, w) && InRange(w, q) && Processable(w, q) && Gap(w, q) > 0
    ensures var moved: int := if Increases(w, q) then Amount(w, q) else -(Amount(w, q) as int);
            var w' := Apply(w, q, c.clock);
            && AsFarAsPossible(w, q, moved) && Moves(w, q, moved, w') && Prices(w, q, moved, c.clock, w')
            && (moved == Wants(w, q) <==> Amount(w, q) == Gap(w, q))
  {
    hide ContextOk;
  }

  lemma LiveInRange(c: Context, w: Board, queue: seq<QueuedBid>)
    requires Live(c, w, queue)
    ensures AllInRange(w, queue)
    ensures forall i :: 0 <= i < |queue| ==> (Blocked(w, queue[i]) <==> !Processable(w, queue[i]))
  {
    forall i | 0 <= i < |queue| ensures InRange(w, queue[i]) {
      QueueEntry(c, w, queue, i);
    }
  }

  lemma QueueLeaves(w: Board, queue: seq<QueuedBid>, k: nat)
    requires k < |queue| && InRange(w, queue[k]) && Processable(w, queue[k])
    ensures Leaves(queue, k, Amount(w, queue[k]) == Gap(w, queue[k]), QueueAfter(w, queue, k))
  {
    hide Amount, Gap, Processable;
  }

  /** Applying the first processable bid is a turn. */
  lemma ApplyIsTurn(c: Context, w: Board, queue: seq<QueuedBid>, k: nat)
    requires Live(c, w, queue) && AllInRange(w, queue) && k < |queue|
    requires Processable(w, queue[k]) && forall i :: 0 <= i < k ==> !Processable(w, queue[i])
    ensures queue[k].territory < |c.clock|
    ensures exists moved ::
              Turn(w, queue, c.clock, k, moved, Apply(w, queue[k], c.clock), QueueAfter(w, queue, k))
  {
    QueueEntry(c, w, queue, k);
    LiveInRange(c, w, queue);
    AppliedMoves(c, w, queue[k]);
    QueueLeaves(w, queue, k);
    var moved: int := if Increases(w, queue[k]) then Amount(w, queue[k]) else -(Amount(w, queue[k]) as int);
    hide Moves, Prices, AsFarAsPossible, Apply, ContextOk, QueueInv, Shape, Leaves, QueueAfter, Processable, Blocked;
    assert Turn(w, queue, c.clock, k, moved, Apply(w, queue[k], c.clock), QueueAfter(w, queue, k));
  }

  // ----- whole rounds -----

  datatype Moment = Moment(board: Board, queue: seq<QueuedBid>)

  ghost predicate Follows(m: Moment, clock: seq<real>, m': Moment) {
    && AllInRange(m.board, m.queue)
    && exists k: nat, moved: int :: Turn(m.board, m.queue, clock, k, moved, m'.board, m'.queue)
  }

  ghost predicate IsChain(chain: seq<Moment>, clock: seq<real>) {
    chain != [] && forall i :: 0 <= i < |chain| - 1 ==> Follows(chain[i], clock, chain[i + 1])
  }

  /** No bid in the queue can be processed. */
  ghost predicate Stuck(m: Moment) {
    AllInRange(m.board, m.queue) && forall i :: 0 <= i < |m.queue| ==> Blocked(m.board, m.queue[i])
  }

  function Last(chain: seq<Moment>): Moment
    requires chain != []
  {
    chain[|chain| - 1]
  }

  /** The moment after the first processable bid of a live queue has been applied. */
  lemma NextMoment(c: Context, w: Board, queue: seq<QueuedBid>, k: nat)
    requires Live(c, w, queue) && AllInRange(w, queue) && k == FirstProcessable(w, queue) < |queue|
    ensures queue[k].territory < |c.clock|
    ensures var w', rest := Apply(w, queue[k], c.clock), QueueAfter(w, queue, k);
            && Live(c, w', rest) && Distance(w'.held, c.target) < Distance(w.held, c.target)
            && Follows(Moment(w, queue), c.clock, Moment(w', rest))
            && Settle(c, w, queue) == Settle(c, w', rest)
  {
    QueueEntry(c, w, queue, k);
    ApplyKeepsQueueInv(c, w, queue, k);
    ApplyShortensDistance(c, w, queue[k]);
    ApplyIsTurn(c, w, queue, k);
    hide Turn, Apply, QueueInv, ContextOk;
  }

  lemma ConsChain(m: Moment, rest: seq<Moment>, clock: seq<real>)
    requires IsChain(rest, clock) && Follows(m, clock, rest[0])
    ensures IsChain([m] + rest, clock) && Last([m] + rest) == Last(rest)
  {
    hide Follows;
    var chain := [m] + rest;
    forall i | 0 <= i < |chain| - 1 ensures Follows(chain[i], clock, chain[i + 1]) {
      assert i > 0 ==> chain[i] == rest[i - 1] && Follows(rest[i - 1], clock, rest[i]);
    }
  }

  /** The rule goes through a chain of turns until it is stuck. */
  lemma {:induction false} SettleIsChain(c: Context, w: Board, queue: seq<QueuedBid>) returns (chain: seq<Moment>)
    requires Live(c, w, queue)
    ensures IsChain(chain, c.clock) && chain[0] == Moment(w, queue) && Stuck(Last(chain))
    ensures Last(chain) == Moment(Settle(c, w, queue).board, Settle(c, w, queue).queue)
    decreases Distance(w.held, c.target)
  {
    LiveInRange(c, w, queue);
    var k := FirstProcessable(w, queue);
    if k == |queue| {
      chain := [Moment(w, queue)];
    } else {
      NextMoment(c, w, queue, k);
      hide Follows, Live, Settle, Stuck, Apply, QueueAfter, IsChain;
      var rest := SettleIsChain(c, Apply(w, queue[k], c.clock), QueueAfter(w, queue, k));
      chain := [Moment(w, queue)] + rest;
      ConsChain(Moment(w, queue), rest, c.clock);
    }
  }

  lemma SameNext(m: Moment, clock: seq<real>, x: Moment, y: Moment)
    requires Follows(m, clock, x) && Follows(m, clock, y)
    ensures x == y
  {
    var k: nat, moved: int :| Turn(m.board, m.queue, clock, k, moved, x.board, x.queue);
    var l: nat, moved': int :| Turn(m.board, m.queue, clock, l, moved', y.board, y.queue);
    hide Turn;
    TurnIsUnique(m.board, m.queue, clock, k, moved, x.board, x.queue, l, moved', y.board, y.queue);
  }

  /** Every chain of turns that ends where it is stuck ends on the board of the rule. */
  lemma {:induction false} EveryChainSettles(c: Context, w: Board, queue: seq<QueuedBid>, chain: seq<Moment>)
    requires Live(c, w, queue) && IsChain(chain, c.clock) && chain[0] == Moment(w, queue) && Stuck(Last(chain))
    ensures Last(chain) == Moment(Settle(c, w, queue).board, Settle(c, w, queue).queue)
    decreases |chain|
  {
    LiveInRange(c, w, queue);
    var k := FirstProcessable(w, queue);
    if k == |queue| {
      assert |chain| > 1 ==> Follows(chain[0], c.clock, chain[1]);
    } else {
      NextMoment(c, w, queue, k);
      assert |chain| > 1;
      assert Follows(chain[0], c.clock, chain[1]);
      var next := Moment(Apply(w, queue[k], c.clock), QueueAfter(w, queue, k));
      hide Follows, Live, Settle, Stuck, Apply, QueueAfter;
      SameNext(chain[0], c.clock, chain[1], next);
      assert Last(chain[1..]) == Last(chain);
      forall i | 0 <= i < |chain[1..]| - 1 ensures Follows(chain[1..][i], c.clock, chain[1..][i + 1]) {
        assert Follows(chain[i + 1], c.clock, chain[i + 2]);
      }
      EveryChainSettles(c, next.board, next.queue, chain[1..]);
    }
  }

  // ----- prices along a chain -----

  /** A turn leaves zero excess demand of a territory, or comes down to it. */
  predicate Posts(m: Moment, m': Moment, t: nat) {
    && t < |m.board.excess| && t < |m'.board.excess|
    && ((m.board.excess[t] == 0 && m'.board.excess[t] > 0) || (m.board.excess[t] > 0 && m'.board.excess[t] == 0))
  }

  /** Somebody who gives up licences of the territory in this turn asked this price for it. */
  predicate GivesUpAt(m: Moment, m': Moment, t: nat, price: real) {
    exists i :: 0 <= i < |m.queue| && InRange(m.board, m.queue[i]) && InRange(m'.board, m.queue[i])
      && m.queue[i].territory == t && m.queue[i].demand.price == price
      && m'.board.held[m.queue[i].bidder][t] < m.board.held[m.queue[i].bidder][t]
  }

  /** What a turn does to the price of a territory. */
  lemma TurnPrice(m: Moment, clock: seq<real>, m': Moment, t: nat)
    requires Follows(m, clock, m') && t < |m.board.posted| == |m.board.excess| == |clock|
    ensures t < |m'.board.posted| == |m'.board.excess| == |m.board.excess|
    ensures !Posts(m, m', t) ==> m'.board.posted[t] == m.board.posted[t]
    ensures Posts(m, m', t) && m.board.excess[t] == 0 ==> m'.board.posted[t] == clock[t]
    ensures Posts(m, m', t) && m.board.excess[t] > 0 ==> GivesUpAt(m, m', t, m'.board.posted[t])
  {
    var k: nat, moved: int :| Turn(m.board, m.queue, clock, k, moved, m'.board, m'.queue);
    var q := m.queue[k];
    if Posts(m, m', t) {
      assert q.territory == t;
      assert InRange(m'.board, q);
    }
  }

  /** From position i on no turn leaves or reaches zero excess demand of the territory. */
  predicate Quiet(chain: seq<Moment>, t: nat, i: nat) {
    forall j :: i <= j < |chain| - 1 ==> !Posts(chain[j], chain[j + 1], t)
  }

  lemma {:induction false} QuietPrice(chain: seq<Moment>, clock: seq<real>, t: nat, i: nat)
    requires IsChain(chain, clock) && i < |chain| && Quiet(chain, t, i)
    requires t < |chain[i].board.posted| == |chain[i].board.excess| == |clock|
    ensures t < |Last(chain).board.posted| && Last(chain).board.posted[t] == chain[i].board.posted[t]
    decreases |chain| - i
  {
    hide Follows, Posts;
    if i + 1 < |chain| {
      assert Follows(chain[i], clock, chain[i + 1]);
      TurnPrice(chain[i], clock, chain[i + 1], t);
      QuietPrice(chain, clock, t, i + 1);
    }
  }

  predicate Wide(chain: seq<Moment>, n: nat) {
    forall i :: 0 <= i < |chain| ==> |chain[i].board.posted| == |chain[i].board.excess| == n
  }

  lemma {:induction false} ChainWidths(chain: seq<Moment>, clock: seq<real>, i: nat)
    requires IsChain(chain, clock) && i < |chain|
    requires |chain[0].board.posted| == |chain[0].board.excess| == |clock|
    ensures |chain[i].board.posted| == |chain[i].board.excess| == |clock|
  {
    if i > 0 {
      ChainWidths(chain, clock, i - 1);
      assert Follows(chain[i - 1], clock, chain[i]);
    }
  }

  /**
   * The price of a territory at the end of a chain. When no turn leaves or reaches zero excess demand, it is the price
   * at the beginning. Otherwise the last such turn decides: on leaving zero it is the clock price, on coming down the
   * price asked by the bidder that gave licences up.
   */
  lemma ChainPrice(chain: seq<Moment>, clock: seq<real>, t: nat, i: nat)
    requires IsChain(chain, clock) && t < |clock| == |chain[0].board.posted| == |chain[0].board.excess|
    ensures Wide(chain, |clock|)
    ensures Quiet(chain, t, 0) ==> Last(chain).board.posted[t] == chain[0].board.posted[t]
    ensures i + 1 < |chain| && Posts(chain[i], chain[i + 1], t) && Quiet(chain, t, i + 1) ==>
              if chain[i].board.excess[t] == 0 then Last(chain).board.posted[t] == clock[t]
              else GivesUpAt(chain[i], chain[i + 1], t, Last(chain).board.posted[t])
  {
    hide Follows, GivesUpAt;
    forall j | 0 <= j < |chain| ensures |chain[j].board.posted| == |chain[j].board.excess| == |clock| {
      ChainWidths(chain, clock, j);
    }
    if Quiet(chain, t, 0) {
      QuietPrice(chain, clock, t, 0);
    }
    if i + 1 < |chain| && Posts(chain[i], chain[i + 1], t) && Quiet(chain, t, i + 1) {
      assert Follows(chain[i], clock, chain[i + 1]);
      TurnPrice(chain[i], clock, chain[i + 1], t);
      QuietPrice(chain, clock, t, i + 1);
    }
  }

  // ----- prices of a round -----

  /** A bidder holds fewer licences of a territory than before, and names a price. */
  predicate GaveAt(held0: Table, held: Table, targets: seq<seq<Demand>>, price: real, t: nat, b: nat) {
    && b < |held0| && b < |held| && b < |targets| && t < |held0[b]| && t < |held[b]| && t < |targets[b]|
    && held[b][t] < held0[b][t] && targets[b][t].price == price
  }

  /** A price is the one that a bidder names who gave up licences of the territory. */
  predicate SomeoneReleased(held0: Table, held: Table, targets: seq<seq<Demand>>, price: real, t: nat) {
    exists b: nat :: b < |targets| && GaveAt(held0, held, targets, price, t, b)
  }

  /** A bidder holds fewer licences of the territory than before the round, and its demand price is posted. */
  predicate Released(c: Context, w: Board, t: nat)
    requires ContextOk(c) && Shape(c, w) && t < |c.supply|
  {
    SomeoneReleased(c.held0, w.held, c.target, w.posted[t], t)
  }

  /** While a territory with excess demand comes down to zero, the price is that of a bidder that gave up licences. */
  predicate ReleasedAtZero(c: Context, w: Board, t: nat)
    requires ContextOk(c) && Shape(c, w) && t < |c.supply|
  {
    w.excess[t] >= 0 && (w.excess[t] == 0 ==> Released(c, w, t))
  }

  lemma StepReleases(c: Context, w: Board, q: QueuedBid, t: nat)
    requires RoundInv(c, w) && t < |c.supply| && ReleasedAtZero(c, w, t)
    requires InRange(w, q) && Processable(w, q) && Gap(w, q) > 0 && q.demand == c.target[q.bidder][q.territory]
    ensures Shape(c, Apply(w, q, c.clock)) && ReleasedAtZero(c, Apply(w, q, c.clock), t)
  {
    ApplyEffect(c, w, q);
    AppliedMoves(c, w, q);
    var w' := Apply(w, q, c.clock);
    hide Conserved, Budgeted, Floored, Priced, Apply;
    if w'.excess[t] == 0 {
      if q.territory == t {
        assert w'.held[q.bidder][t] < c.held0[q.bidder][t];
        assert w'.posted[t] == q.demand.price;
        assert GaveAt(c.held0, w'.held, c.target, w'.posted[t], t, q.bidder);
      } else {
        assert w.excess[t] == 0 && w'.posted[t] == w.posted[t];
        var b: nat :| b < |c.target| && GaveAt(c.held0, w.held, c.target, w.posted[t], t, b);
        assert GaveAt(c.held0, w'.held, c.target, w'.posted[t], t, b);
      }
    }
  }

  lemma {:induction false} SettleReleases(c: Context, w: Board, queue: seq<QueuedBid>, t: nat)
    requires Live(c, w, queue) && RoundInv(c, w) && t < |c.supply| && ReleasedAtZero(c, w, t)
    ensures var f := Settle(c, w, queue).board; Shape(c, f) && ReleasedAtZero(c, f, t)
    decreases Distance(w.held, c.target)
  {
    var k := FirstProcessable(w, queue);
    if k < |queue| {
      QueueEntry(c, w, queue, k);
      ApplyKeepsQueueInv(c, w, queue, k);
      ApplyKeepsRoundInv(c, w, queue[k]);
      ApplyShortensDistance(c, w, queue[k]);
      StepReleases(c, w, queue[k], t);
      hide RoundInv, ReleasedAtZero, Apply, QueueInv, Distance;
      SettleReleases(c, Apply(w, queue[k], c.clock), QueueAfter(w, queue, k), t);
    }
  }

  /** The board from which a round starts: excess demand is posted at the clock, the rest at last round's prices. */
  lemma OpeningPrices(s: Setup, a: State, t: nat)
    requires CanSettle(s, a) && t < s.TerritoryCount() && |a.excess[a.round - 1]| == s.TerritoryCount()
    ensures var w := OpeningBoard(s, a);
            && |w.posted| == |w.excess| == |a.clock[a.round]| == s.TerritoryCount()
            && w.excess[t] == a.excess[a.round - 1][t]
            && w.posted[t] == if w.excess[t] > 0 then a.clock[a.round][t] else a.posted[a.round - 1][t]
  {
  }

  /**
   * The posted price of a later round, through the turns that led to it. When none leaves or reaches zero excess demand
   * of the territory, it is the clock price where excess demand was positive and last round's price elsewhere; the last
   * turn that does decides otherwise.
   */
  lemma RoundPrices(s: Setup, a: State, queue: seq<QueuedBid>, t: nat) returns (chain: seq<Moment>)
    requires CanSettle(s, a) && Live(ContextOf(s, a), OpeningBoard(s, a), queue)
    requires t < s.TerritoryCount() && |a.excess[a.round - 1]| == s.TerritoryCount()
    ensures IsChain(chain, a.clock[a.round]) && Wide(chain, s.TerritoryCount()) && Stuck(Last(chain))
    ensures chain[0] == Moment(OpeningBoard(s, a), queue)
    ensures var price := Last(chain).board.posted;
            && RegularRound(s, a, queue).posted == a.posted + [price]
            && RegularRound(s, a, queue).licences == a.licences + [Last(chain).board.held]
            && (Quiet(chain, t, 0) ==> price[t] == if a.excess[a.round - 1][t] > 0 then a.clock[a.round][t]
                                                   else a.posted[a.round - 1][t])
            && (forall i: nat :: i + 1 < |chain| && Posts(chain[i], chain[i + 1], t) && Quiet(chain, t, i + 1) ==>
                  if chain[i].board.excess[t] == 0 then price[t] == a.clock[a.round][t]
                  else GivesUpAt(chain[i], chain[i + 1], t, price[t]))
  {
    OpeningPrices(s, a, t);
    var c, w := ContextOf(s, a), OpeningBoard(s, a);
    chain := SettleIsChain(c, w, queue);
    hide OpeningBoard, Live, Settle, IsChain, Stuck, Quiet, Posts, GivesUpAt;
    ChainPrice(chain, c.clock, t, 0);
    forall i: nat | i + 1 < |chain| && Posts(chain[i], chain[i + 1], t) && Quiet(chain, t, i + 1)
      ensures if chain[i].board.excess[t] == 0 then Last(chain).board.posted[t] == c.clock[t]
              else GivesUpAt(chain[i], chain[i + 1], t, Last(chain).board.posted[t])
    {
      ChainPrice(chain, c.clock, t, i);
    }
  }

  lemma ContextRows(s: Setup, a: State)
    requires CanSettle(s, a)
    ensures var c := ContextOf(s, a);
            && |c.supply| == s.TerritoryCount() && |c.eligibility| == s.BidderCount()
            && c.held0 == a.licences[a.round - 1] && c.target == Targets(s, a, a.round)
  {
  }

  lemma NewRows(s: Setup, a: State, queue: seq<QueuedBid>)
    requires CanSettle(s, a) && Live(ContextOf(s, a), OpeningBoard(s, a), queue)
    ensures var a' := RegularRound(s, a, queue);
            var f := Settle(ContextOf(s, a), OpeningBoard(s, a), queue).board;
            && |a'.posted| == |a'.licences| == |a'.excess| == a.round + 1
            && a'.posted[a.round] == f.posted && a'.licences[a.round] == f.held && a'.excess[a.round] == f.excess
  {
    hide Live, Settle, OpeningBoard, ContextOf;
  }

  lemma SettledReleases(s: Setup, a: State, queue: seq<QueuedBid>, t: nat)
    requires Evaluable(s, a) && a.round > 1 && CanSettle(s, a) && Live(ContextOf(s, a), OpeningBoard(s, a), queue)
    requires t < s.TerritoryCount() && |a.excess[a.round - 1]| == s.TerritoryCount() && a.excess[a.round - 1][t] > 0
    ensures var c := ContextOf(s, a);
            var f := Settle(c, OpeningBoard(s, a), queue).board;
            ContextOk(c) && Shape(c, f) && ReleasedAtZero(c, f, t)
  {
    ContextReady(s, a);
    OpeningPrices(s, a, t);
    var c, w := ContextOf(s, a), OpeningBoard(s, a);
    assert t < |c.supply|;
    hide Evaluable, Settle, CanSettle, CanEvaluate, OpeningBoard, ContextOf;
    SettleReleases(c, w, queue, t);
  }

  /**
   * A territory that enters a round with excess demand and ends it without any is posted at the demand price of a
   * bidder that holds fewer of its licences than before.
   */
  lemma ReleasePrice(s: Setup, a: State, queue: seq<QueuedBid>, t: nat)
    requires Evaluable(s, a) && a.round > 1 && CanSettle(s, a) && Live(ContextOf(s, a), OpeningBoard(s, a), queue)
    requires t < s.TerritoryCount() && |a.excess[a.round - 1]| == s.TerritoryCount() && a.excess[a.round - 1][t] > 0
    ensures var a', targets := RegularRound(s, a, queue), Targets(s, a, a.round);
            && |a'.excess[a.round]| == |a'.posted[a.round]| == s.TerritoryCount()
            && Rectangular(a'.licences[a.round], s.BidderCount(), s.TerritoryCount())
            && (a'.excess[a.round][t] == 0 ==>
                  SomeoneReleased(a.licences[a.round - 1], a'.licences[a.round], targets, a'.posted[a.round][t], t))
  {
    SettledReleases(s, a, queue, t);
    NewRows(s, a, queue);
    ContextRows(s, a);
    hide Evaluable, Live, Settle, OpeningBoard, RegularRound, SomeoneReleased, ContextOf, CanSettle, CanEvaluate,
         Targets, ContextOk;
  }
}
