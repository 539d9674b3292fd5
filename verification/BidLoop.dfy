/**
 * The bid-processing loop of a regular clock round (demo/chaincode/fpc/evaluate.cpp).
 * A board carries the coupled ledgers that the loop moves quantities between.
 */
module BidLoop {
  import opened Tally

  datatype Demand = Demand(territoryId: nat, quantity: nat, price: real)

  datatype QueuedBid = QueuedBid(bidder: nat, territory: nat, demand: Demand, pricePoint: nat, tieBreak: nat)

  /** Licences held, excess demand, eligibility left and posted price while a round is evaluated. */
  datatype Board = Board(held: Table, excess: seq<int>, cap: seq<nat>, posted: seq<real>)

  /** What is fixed during the evaluation of one round: indexed by bidder and by territory. */
  datatype Context = Context(
    supply: seq<nat>,
    eligibility: seq<nat>,
    held0: Table,
    excess0: seq<int>,
    posted0: seq<real>,
    clock: seq<real>,
    target: seq<seq<Demand>>)

  // ----- one step -----

  predicate InRange(w: Board, q: QueuedBid) {
    && q.bidder < |w.held| == |w.cap|
    && q.territory < |w.excess| == |w.posted| == |w.held[q.bidder]|
  }

  predicate Increases(w: Board, q: QueuedBid)
    requires InRange(w, q)
  {
    q.demand.quantity > w.held[q.bidder][q.territory]
  }

  /** An increase needs eligibility; a decrease needs excess demand. */
  predicate Processable(w: Board, q: QueuedBid)
    requires InRange(w, q)
  {
    if Increases(w, q) then w.cap[q.bidder] != 0 else w.excess[q.territory] > 0
  }

  function Gap(w: Board, q: QueuedBid): nat
    requires InRange(w, q)
  {
    Abs(q.demand.quantity - w.held[q.bidder][q.territory])
  }

  /** How much of a processable bid can be applied now. */
  function Amount(w: Board, q: QueuedBid): (n: nat)
    requires InRange(w, q) && Processable(w, q)
    ensures n <= Gap(w, q) && (Gap(w, q) > 0 ==> n > 0)
  {
    Min(Gap(w, q), if Increases(w, q) then w.cap[q.bidder] else w.excess[q.territory])
  }

  /** The board after one processable bid has been applied as far as possible. */
  function Apply(w: Board, q: QueuedBid, clock: seq<real>): Board
    requires InRange(w, q) && Processable(w, q)
    requires q.territory < |clock|
  {
    var b, t, n := q.bidder, q.territory, Amount(w, q);
    if Increases(w, q) then
      Board(SetCell(w.held, b, t, w.held[b][t] + n),
            w.excess[t := w.excess[t] + n],
            w.cap[b := w.cap[b] - n],
            if w.excess[t] == 0 then w.posted[t := clock[t]] else w.posted)
    else
      Board(SetCell(w.held, b, t, w.held[b][t] - n),
            w.excess[t := w.excess[t] - n],
            w.cap[b := w.cap[b] + n],
            if w.excess[t] - n == 0 then w.posted[t := q.demand.price] else w.posted)
  }

  function Without<T>(s: seq<T>, k: nat): (r: seq<T>)
    requires k < |s|
    ensures |r| == |s| - 1
  {
    s[..k] + s[k + 1..]
  }

  // ----- invariants of a round -----

  predicate ContextOk(c: Context) {
    var B, T := |c.eligibility|, |c.supply|;
    && Rectangular(c.held0, B, T)
    && Rectangular(c.target, B, T)
    && |c.excess0| == |c.posted0| == |c.clock| == T
    && (forall t :: 0 <= t < T ==> c.posted0[t] <= c.clock[t])
    && (forall b, t :: 0 <= b < B && 0 <= t < T ==>
          && c.held0[b][t] <= c.supply[t]
          && c.target[b][t].quantity <= c.supply[t]
          && c.posted0[t] <= c.target[b][t].price <= c.clock[t])
  }

  predicate Between(a: nat, x: nat, b: nat) {
    a <= x <= b || b <= x <= a
  }

  predicate Shape(c: Context, w: Board) {
    && Rectangular(w.held, |c.eligibility|, |c.supply|)
    && |w.excess| == |w.posted| == |c.supply|
    && |w.cap| == |c.eligibility|
  }

  /** Excess demand is licences held minus supply. */
  predicate Conserved(c: Context, w: Board)
    requires Shape(c, w)
  {
    forall t :: 0 <= t < |c.supply| ==> w.excess[t] == Sum(Column(w.held, t)) - c.supply[t]
  }

  /** Eligibility left plus licences held is the bidder's eligibility. */
  predicate Budgeted(c: Context, w: Board)
    requires Shape(c, w)
  {
    forall b :: 0 <= b < |c.eligibility| ==> w.cap[b] + Sum(w.held[b]) == c.eligibility[b]
  }

  /** Excess demand does not fall below zero, nor below where it started. */
  predicate Floored(c: Context, w: Board)
    requires ContextOk(c) && Shape(c, w)
  {
    forall t :: 0 <= t < |c.supply| ==> w.excess[t] >= Min(0, c.excess0[t])
  }

  /** Prices stay between last round's posted price and the clock price, and excess demand forces the clock price. */
  predicate Priced(c: Context, w: Board)
    requires ContextOk(c) && Shape(c, w)
  {
    forall t :: 0 <= t < |c.supply| ==>
      && c.posted0[t] <= w.posted[t] <= c.clock[t]
      && (c.excess0[t] >= 0 && w.excess[t] > 0 ==> w.posted[t] == c.clock[t])
  }

  /** Licences only move from last round's holding towards the demand. */
  predicate Directed(c: Context, w: Board)
    requires ContextOk(c) && Shape(c, w)
  {
    forall b, t :: 0 <= b < |c.eligibility| && 0 <= t < |c.supply| ==>
      Between(c.held0[b][t], w.held[b][t], c.target[b][t].quantity)
  }

  predicate RoundInv(c: Context, w: Board) {
    && ContextOk(c)
    && Shape(c, w)
    && Conserved(c, w)
    && Budgeted(c, w)
    && Floored(c, w)
    && Priced(c, w)
    && Directed(c, w)
  }

  predicate Queued(queue: seq<QueuedBid>, b: nat, t: nat) {
    exists i :: 0 <= i < |queue| && queue[i].bidder == b && queue[i].territory == t
  }

  predicate DistinctCells(queue: seq<QueuedBid>) {
    forall i, j :: 0 <= i < j < |queue| ==>
      queue[i].bidder != queue[j].bidder || queue[i].territory != queue[j].territory
  }

  predicate CarriesTargets(c: Context, queue: seq<QueuedBid>)
    requires ContextOk(c)
  {
    forall i :: 0 <= i < |queue| ==>
      && queue[i].bidder < |c.eligibility|
      && queue[i].territory < |c.supply|
      && queue[i].demand == c.target[queue[i].bidder][queue[i].territory]
  }

  /** The queue holds exactly one bid for each bidder and territory whose holding differs from the demand. */
  predicate QueueInv(c: Context, w: Board, queue: seq<QueuedBid>)
    requires ContextOk(c) && Shape(c, w)
  {
    && CarriesTargets(c, queue)
    && DistinctCells(queue)
    && (forall b: nat, t: nat :: b < |c.eligibility| && t < |c.supply| ==>
          (w.held[b][t] != c.target[b][t].quantity <==> Queued(queue, b, t)))
  }

  lemma QueueEntry(c: Context, w: Board, queue: seq<QueuedBid>, k: nat)
    requires ContextOk(c) && Shape(c, w) && QueueInv(c, w, queue)
    requires k < |queue|
    ensures InRange(w, queue[k]) && queue[k].territory < |c.clock|
    ensures queue[k].demand == c.target[queue[k].bidder][queue[k].territory]
    ensures Gap(w, queue[k]) > 0
  {
    assert Queued(queue, queue[k].bidder, queue[k].territory);
  }

  /** One application touches one cell, one territory and one bidder, each by the amount applied. */
  lemma ApplyEffect(c: Context, w: Board, q: QueuedBid)
    requires ContextOk(c) && Shape(c, w)
    requires InRange(w, q) && Processable(w, q)
    ensures var w', b, t := Apply(w, q, c.clock), q.bidder, q.territory;
            var n: int := Amount(w, q);
            var d := if Increases(w, q) then n else -n;
            && Shape(c, w')
            && w'.held[b][t] == w.held[b][t] + d
            && (forall a, u :: 0 <= a < |w.held| && 0 <= u < |w.excess| && (a != b || u != t) ==>
                  w'.held[a][u] == w.held[a][u])
            && w'.excess == w.excess[t := w.excess[t] + d]
            && w'.cap[b] == w.cap[b] - d
            && (forall a :: 0 <= a < |w.cap| && a != b ==> w'.cap[a] == w.cap[a])
            && Sum(w'.held[b]) == Sum(w.held[b]) + d
            && (forall a :: 0 <= a < |w.held| && a != b ==> w'.held[a] == w.held[a])
            && Sum(Column(w'.held, t)) == Sum(Column(w.held, t)) + d
            && (forall u :: 0 <= u < |w.excess| && u != t ==> Column(w'.held, u) == Column(w.held, u))
  {
    var w' := Apply(w, q, c.clock);
    CellUpdate(w.held, |c.eligibility|, |c.supply|, q.bidder, q.territory, w'.held[q.bidder][q.territory]);
  }

  lemma ApplyKeepsLedgers(c: Context, w: Board, q: QueuedBid)
    requires ContextOk(c) && Shape(c, w) && Conserved(c, w) && Budgeted(c, w)
    requires InRange(w, q) && Processable(w, q)
    ensures Shape(c, Apply(w, q, c.clock))
    ensures Conserved(c, Apply(w, q, c.clock)) && Budgeted(c, Apply(w, q, c.clock))
  {
    ApplyEffect(c, w, q);
  }

  lemma ApplyKeepsMarket(c: Context, w: Board, q: QueuedBid)
    requires ContextOk(c) && Shape(c, w) && Floored(c, w) && Priced(c, w)
    requires InRange(w, q) && Processable(w, q)
    requires q.demand == c.target[q.bidder][q.territory]
    ensures Shape(c, Apply(w, q, c.clock))
    ensures Floored(c, Apply(w, q, c.clock)) && Priced(c, Apply(w, q, c.clock))
  {
    ApplyEffect(c, w, q);
  }

  lemma ApplyKeepsDirection(c: Context, w: Board, q: QueuedBid)
    requires ContextOk(c) && Shape(c, w) && Directed(c, w)
    requires InRange(w, q) && Processable(w, q)
    requires q.demand == c.target[q.bidder][q.territory]
    ensures Shape(c, Apply(w, q, c.clock)) && Directed(c, Apply(w, q, c.clock))
  {
    ApplyEffect(c, w, q);
  }

  /** Every ledger invariant survives one application. */
  lemma ApplyKeepsRoundInv(c: Context, w: Board, q: QueuedBid)
    requires RoundInv(c, w)
    requires InRange(w, q) && Processable(w, q)
    requires q.demand == c.target[q.bidder][q.territory]
    ensures RoundInv(c, Apply(w, q, c.clock))
  {
    ApplyKeepsLedgers(c, w, q);
    ApplyKeepsMarket(c, w, q);
    ApplyKeepsDirection(c, w, q);
  }

  function QueueAfter(w: Board, queue: seq<QueuedBid>, k: nat): seq<QueuedBid>
    requires k < |queue| && InRange(w, queue[k]) && Processable(w, queue[k])
  {
    if Amount(w, queue[k]) == Gap(w, queue[k]) then Without(queue, k) else queue
  }

  lemma QueuedWithout(queue: seq<QueuedBid>, k: nat)
    requires DistinctCells(queue) && k < |queue|
    ensures DistinctCells(Without(queue, k))
    ensures forall b: nat, t: nat :: Queued(Without(queue, k), b, t) <==>
              Queued(queue, b, t) && (b != queue[k].bidder || t != queue[k].territory)
  {
    var rest := Without(queue, k);
    forall b: nat, t: nat | Queued(queue, b, t) && (b != queue[k].bidder || t != queue[k].territory)
      ensures Queued(rest, b, t)
    {
      var i :| 0 <= i < |queue| && queue[i].bidder == b && queue[i].territory == t;
      assert rest[if i < k then i else i - 1] == queue[i];
    }
  }

  lemma ApplyKeepsQueueInv(c: Context, w: Board, queue: seq<QueuedBid>, k: nat)
    requires ContextOk(c) && Shape(c, w) && QueueInv(c, w, queue)
    requires k < |queue| && InRange(w, queue[k]) && Processable(w, queue[k])
    ensures Shape(c, Apply(w, queue[k], c.clock))
    ensures QueueInv(c, Apply(w, queue[k], c.clock), QueueAfter(w, queue, k))
  {
    QueueEntry(c, w, queue, k);
    ApplyEffect(c, w, queue[k]);
    QueuedWithout(queue, k);
  }

  // ----- termination -----

  function RowDistance(held: seq<nat>, target: seq<Demand>): nat
    requires |held| == |target|
  {
    Sum(seq(|held|, t requires 0 <= t < |held| => Abs(held[t] - target[t].quantity)))
  }

  /** Total difference between licences held and licences demanded. */
  function Distance(held: Table, target: seq<seq<Demand>>): nat
    requires |held| == |target| && forall b :: 0 <= b < |held| ==> |held[b]| == |target[b]|
  {
    Sum(seq(|held|, b requires 0 <= b < |held| => RowDistance(held[b], target[b])))
  }

  lemma RowDistanceUpdate(held: seq<nat>, target: seq<Demand>, t: nat, v: nat)
    requires |held| == |target| && t < |held|
    ensures RowDistance(held[t := v], target) ==
            RowDistance(held, target) - Abs(held[t] - target[t].quantity) + Abs(v - target[t].quantity)
  {
    var row := seq(|held|, u requires 0 <= u < |held| => Abs(held[u] - target[u].quantity));
    var held' := held[t := v];
    var row' := seq(|held'|, u requires 0 <= u < |held'| => Abs(held'[u] - target[u].quantity));
    assert row' == row[t := Abs(v - target[t].quantity)];
    SumUpdate(row, t, Abs(v - target[t].quantity));
  }

  lemma DistanceUpdate(held: Table, target: seq<seq<Demand>>, b: nat, row: seq<nat>)
    requires |held| == |target| && forall a :: 0 <= a < |held| ==> |held[a]| == |target[a]|
    requires b < |held| && |row| == |held[b]|
    ensures Distance(held[b := row], target) ==
            Distance(held, target) - RowDistance(held[b], target[b]) + RowDistance(row, target[b])
  {
    var rows := seq(|held|, a requires 0 <= a < |held| => RowDistance(held[a], target[a]));
    var held' := held[b := row];
    var rows' := seq(|held'|, a requires 0 <= a < |held'| => RowDistance(held'[a], target[a]));
    assert rows' == rows[b := RowDistance(row, target[b])];
    SumUpdate(rows, b, RowDistance(row, target[b]));
  }

  /** Each application shortens the distance by exactly the amount applied, which is positive. */
  lemma ApplyShortensDistance(c: Context, w: Board, q: QueuedBid)
    requires ContextOk(c) && Shape(c, w)
    requires InRange(w, q) && Processable(w, q) && Gap(w, q) > 0
    requires q.demand == c.target[q.bidder][q.territory]
    ensures Shape(c, Apply(w, q, c.clock))
    ensures Amount(w, q) > 0
    ensures Distance(Apply(w, q, c.clock).held, c.target) == Distance(w.held, c.target) - Amount(w, q)
  {
    var b, t, held' := q.bidder, q.territory, Apply(w, q, c.clock).held;
    RowDistanceUpdate(w.held[b], c.target[b], t, held'[b][t]);
    DistanceUpdate(w.held, c.target, b, held'[b]);
    hide RowDistance, Distance;
  }

  // ----- the simple rule -----

  /** The first processable bid in queue order, or the queue's length when there is none. */
  function FirstProcessable(w: Board, queue: seq<QueuedBid>): (k: nat)
    requires forall i :: 0 <= i < |queue| ==> InRange(w, queue[i])
    ensures k <= |queue|
    ensures forall i :: 0 <= i < k ==> !Processable(w, queue[i])
    ensures k < |queue| ==> Processable(w, queue[k])
  {
    if queue == [] || Processable(w, queue[0]) then 0
    else
      var k := FirstProcessable(w, queue[1..]);
      assert forall i :: 1 <= i < |queue| ==> queue[i] == queue[1..][i - 1];
      1 + k
  }

  datatype Settlement = Settlement(board: Board, queue: seq<QueuedBid>)

  ghost predicate Live(c: Context, w: Board, queue: seq<QueuedBid>) {
    ContextOk(c) && Shape(c, w) && QueueInv(c, w, queue)
  }

  /** Apply, as far as possible, the first processable bid in queue order, until no bid is processable. */
  ghost function Settle(c: Context, w: Board, queue: seq<QueuedBid>): Settlement
    requires Live(c, w, queue)
    decreases if Shape(c, w) && ContextOk(c) then Distance(w.held, c.target) else 0
  {
    var k := FirstProcessable(w, queue);
    if k == |queue| then Settlement(w, queue)
    else
      QueueEntry(c, w, queue, k);
      ApplyKeepsQueueInv(c, w, queue, k);
      ApplyShortensDistance(c, w, queue[k]);
      Settle(c, Apply(w, queue[k], c.clock), QueueAfter(w, queue, k))
  }

  /** The rule keeps every round invariant and ends where no queued bid can be processed. */
  lemma {:induction false} SettleOutcome(c: Context, w: Board, queue: seq<QueuedBid>)
    requires Live(c, w, queue) && RoundInv(c, w)
    ensures var s := Settle(c, w, queue);
            && RoundInv(c, s.board)
            && Live(c, s.board, s.queue)
            && (forall i :: 0 <= i < |s.queue| ==> !Processable(s.board, s.queue[i]))
    decreases Distance(w.held, c.target)
  {
    var k := FirstProcessable(w, queue);
    if k < |queue| {
      QueueEntry(c, w, queue, k);
      ApplyKeepsQueueInv(c, w, queue, k);
      ApplyKeepsRoundInv(c, w, queue[k]);
      ApplyShortensDistance(c, w, queue[k]);
      SettleOutcome(c, Apply(w, queue[k], c.clock), QueueAfter(w, queue, k));
    }
  }

  /**
   * The market outcome of a round, bidder by bidder and territory by territory: the demand is met,
   * or it is an increase whose bidder has no eligibility left, or a decrease in a territory without
   * excess demand.
   */
  lemma SettledDemands(c: Context, w: Board, queue: seq<QueuedBid>, b: nat, t: nat)
    requires Live(c, w, queue) && RoundInv(c, w)
    requires b < |c.eligibility| && t < |c.supply|
    ensures var f := Settle(c, w, queue).board;
            && Shape(c, f)
            && (|| f.held[b][t] == c.target[b][t].quantity
                || (f.held[b][t] < c.target[b][t].quantity && f.cap[b] == 0)
                || (f.held[b][t] > c.target[b][t].quantity && f.excess[t] <= 0))
  {
    SettleOutcome(c, w, queue);
    var s := Settle(c, w, queue);
    if s.board.held[b][t] != c.target[b][t].quantity {
      assert Queued(s.queue, b, t);
      var i :| 0 <= i < |s.queue| && s.queue[i].bidder == b && s.queue[i].territory == t;
      QueueEntry(c, s.board, s.queue, i);
    }
  }
}
