/**
 * Bids as demand lists: what a list asks of each territory, and how missing territories are filled in
 * (demo/chaincode/fpc/bid.cpp and fillMissingBids in demo/chaincode/fpc/auction-state.cpp).
 */
module Bids {
  import opened Tally
  import opened Basics
  import opened AuctionSetup
  import opened BidLoop

  datatype Bid = Bid(auctionId: nat, round: nat, demands: seq<Demand>)

  const NO_BID := Bid(0, 0, [])

  function Ids(demands: seq<Demand>): (ids: seq<nat>)
    ensures |ids| == |demands|
  {
    seq(|demands|, i requires 0 <= i < |demands| => demands[i].territoryId)
  }

  function Quantities(demands: seq<Demand>): (qs: seq<nat>)
    ensures |qs| == |demands|
  {
    seq(|demands|, i requires 0 <= i < |demands| => demands[i].quantity)
  }

  method SumQuantityDemands(demands: seq<Demand>) returns (total: nat)
    ensures total == Sum(Quantities(demands)) % WORD
  {
    total := 0;
    for i := 0 to |demands|
      invariant total == Sum(Quantities(demands)[..i]) % WORD
    {
      total := (total + demands[i].quantity) % WORD;
      assert Quantities(demands)[..i + 1] == Quantities(demands)[..i] + [demands[i].quantity];
      SumAppend(Quantities(demands)[..i], demands[i].quantity);
    }
    assert Quantities(demands)[..|demands|] == Quantities(demands);
  }

  method GetDemandedTerritoryIds(demands: seq<Demand>) returns (ids: seq<nat>)
    ensures ids == Ids(demands)
  {
    ids := [];
    for i := 0 to |demands|
      invariant ids == Ids(demands)[..i]
    {
      ids := ids + [demands[i].territoryId];
    }
  }

  /** What a demand list asks of one territory; nothing at the fallback price when it does not mention it. */
  function TargetOf(demands: seq<Demand>, id: nat, fallback: real): (d: Demand)
    ensures id !in Ids(demands) ==> d == Demand(id, 0, fallback)
    ensures id in Ids(demands) ==> d in demands && d.territoryId == id
  {
    var i := Position(Ids(demands), id);
    if i < |demands| then demands[i] else Demand(id, 0, fallback)
  }

  function TargetRow(s: Setup, demands: seq<Demand>, fallback: seq<real>): (row: seq<Demand>)
    requires |fallback| == s.TerritoryCount()
    ensures |row| == s.TerritoryCount()
  {
    seq(s.TerritoryCount(), t requires 0 <= t < s.TerritoryCount() =>
      TargetOf(demands, s.TerritoryIds()[t], fallback[t]))
  }

  /** Known territories, none twice, none beyond its supply. */
  predicate DemandsWithin(s: Setup, demands: seq<Demand>) {
    && Distinct(Ids(demands))
    && forall i :: 0 <= i < |demands| ==>
         var t := Position(s.TerritoryIds(), demands[i].territoryId);
         t < s.TerritoryCount() && demands[i].quantity <= s.Supply()[t]
  }

  // ----- a list's total is the total over territories -----

  function QuantityRow(s: Setup, demands: seq<Demand>): (row: seq<nat>)
    ensures |row| == s.TerritoryCount()
  {
    seq(s.TerritoryCount(), t requires 0 <= t < s.TerritoryCount() =>
      TargetOf(demands, s.TerritoryIds()[t], 0.0).quantity)
  }

  lemma {:induction false} PositionAppend(ids: seq<nat>, x: nat, id: nat)
    ensures Position(ids + [x], id) ==
            if id in ids then Position(ids, id) else if id == x then |ids| else |ids| + 1
  {
    if ids != [] {
      assert (ids + [x])[1..] == ids[1..] + [x];
      PositionAppend(ids[1..], x, id);
    }
  }

  lemma TargetAppend(demands: seq<Demand>, d: Demand, id: nat, fallback: real)
    ensures TargetOf(demands + [d], id, fallback) ==
            if id in Ids(demands) then TargetOf(demands, id, fallback)
            else if id == d.territoryId then d else Demand(id, 0, fallback)
  {
    assert Ids(demands + [d]) == Ids(demands) + [d.territoryId];
    PositionAppend(Ids(demands), d.territoryId, id);
  }

  lemma DistinctInit(ids: seq<nat>, x: nat)
    requires Distinct(ids + [x])
    ensures Distinct(ids) && x !in ids
  {
    assert (ids + [x])[|ids|] == x;
    assert forall i :: 0 <= i < |ids| ==> ids[i] == (ids + [x])[i];
  }

  lemma WithinInit(s: Setup, demands: seq<Demand>, d: Demand)
    requires DemandsWithin(s, demands + [d])
    ensures DemandsWithin(s, demands)
    ensures d.territoryId !in Ids(demands)
    ensures Position(s.TerritoryIds(), d.territoryId) < s.TerritoryCount()
  {
    var all := demands + [d];
    assert Ids(all) == Ids(demands) + [d.territoryId];
    DistinctInit(Ids(demands), d.territoryId);
    assert all[|demands|] == d;
    assert forall i :: 0 <= i < |demands| ==> all[i] == demands[i];
  }

  /** The last demand of a list fills a cell that the others leave at zero. */
  lemma LastDemand(s: Setup, demands: seq<Demand>, d: Demand)
    requires Distinct(s.TerritoryIds()) && DemandsWithin(s, demands + [d])
    ensures var t := Position(s.TerritoryIds(), d.territoryId);
            && t < s.TerritoryCount()
            && QuantityRow(s, demands)[t] == 0
            && QuantityRow(s, demands + [d]) == QuantityRow(s, demands)[t := d.quantity]
  {
    WithinInit(s, demands, d);
    hide DemandsWithin;
    var t := Position(s.TerritoryIds(), d.territoryId);
    forall u | 0 <= u < s.TerritoryCount()
      ensures QuantityRow(s, demands + [d])[u] == QuantityRow(s, demands)[t := d.quantity][u]
    {
      TargetAppend(demands, d, s.TerritoryIds()[u], 0.0);
      PositionOfDistinct(s.TerritoryIds(), u);
    }
  }

  lemma {:induction false} ZeroSum(n: nat)
    ensures Sum(seq(n, _ => 0)) == 0
  {
    if n > 0 {
      assert seq(n, _ => 0)[1..] == seq(n - 1, _ => 0);
      ZeroSum(n - 1);
    }
  }

  /** The licences that a list asks for add up to the same total by demand and by territory. */
  lemma {:induction false} DemandTotals(s: Setup, demands: seq<Demand>)
    requires Distinct(s.TerritoryIds()) && DemandsWithin(s, demands)
    ensures Sum(QuantityRow(s, demands)) == Sum(Quantities(demands))
  {
    if demands == [] {
      assert QuantityRow(s, demands) == seq(s.TerritoryCount(), _ => 0);
      ZeroSum(s.TerritoryCount());
    } else {
      var init, d := demands[..|demands| - 1], demands[|demands| - 1];
      assert demands == init + [d];
      WithinInit(s, init, d);
      LastDemand(s, init, d);
      hide DemandsWithin, QuantityRow;
      DemandTotals(s, init);
      SumUpdate(QuantityRow(s, init), Position(s.TerritoryIds(), d.territoryId), d.quantity);
      assert Quantities(demands) == Quantities(init) + [d.quantity];
      SumAppend(Quantities(init), d.quantity);
    }
  }

  /** An acceptable list asks for no more than the whole supply. */
  lemma WithinTotals(s: Setup, demands: seq<Demand>)
    requires Distinct(s.TerritoryIds()) && DemandsWithin(s, demands)
    ensures Sum(Quantities(demands)) <= Sum(s.Supply())
  {
    DemandTotals(s, demands);
    forall t | 0 <= t < s.TerritoryCount() ensures QuantityRow(s, demands)[t] <= s.Supply()[t] {
      PositionOfDistinct(s.TerritoryIds(), t);
    }
    hide DemandsWithin, QuantityRow;
    SumBound(QuantityRow(s, demands), s.Supply());
  }

  /** An acceptable list never asks for more than there is, so its 32-bit total does not wrap. */
  lemma TotalsDoNotWrap(s: Setup, demands: seq<Demand>)
    requires WellFormed(s) && DemandsWithin(s, demands)
    ensures Sum(Quantities(demands)) % WORD == Sum(Quantities(demands))
  {
    hide DemandsWithin, Covered, CheckValidity;
    WithinTotals(s, demands);
  }

  // ----- filling in missing territories -----

  predicate Ascending(s: seq<nat>) {
    forall i, j :: 0 <= i < j < |s| ==> s[i] <= s[j]
  }

  lemma AscendingCons(x: nat, rest: seq<nat>)
    requires Ascending(rest)
    requires forall y :: y in rest ==> x <= y
    ensures Ascending([x] + rest)
    ensures x !in rest && Distinct(rest) ==> Distinct([x] + rest)
  {
    var s := [x] + rest;
    forall i, j | 0 <= i < j < |s|
      ensures s[i] <= s[j] && (x !in rest && Distinct(rest) ==> s[i] != s[j])
    {
      assert s[j] == rest[j - 1] && rest[j - 1] in rest;
      if i > 0 {
        assert s[i] == rest[i - 1];
      }
    }
  }

  function InsertId(id: nat, sorted: seq<nat>): (r: seq<nat>)
    ensures |r| == |sorted| + 1
    ensures forall x :: x in r <==> x == id || x in sorted
  {
    if sorted == [] || id <= sorted[0] then [id] + sorted
    else [sorted[0]] + InsertId(id, sorted[1..])
  }

  lemma {:induction false} InsertAscending(id: nat, sorted: seq<nat>)
    requires Ascending(sorted)
    ensures Ascending(InsertId(id, sorted))
    ensures id !in sorted && Distinct(sorted) ==> Distinct(InsertId(id, sorted))
  {
    if sorted == [] {
    } else if id <= sorted[0] {
      AscendingCons(id, sorted);
    } else {
      var x, rest := sorted[0], sorted[1..];
      InsertAscending(id, rest);
      assert forall i :: 0 <= i < |rest| ==> x <= rest[i] == sorted[i + 1];
      AscendingCons(x, InsertId(id, rest));
    }
  }

  /** The ids in ascending order. */
  function SortIds(ids: seq<nat>): (r: seq<nat>)
    ensures Ascending(r) && |r| == |ids|
    ensures forall x :: x in r <==> x in ids
    ensures Distinct(ids) ==> Distinct(r)
  {
    if ids == [] then []
    else
      InsertAscending(ids[0], SortIds(ids[1..]));
      InsertId(ids[0], SortIds(ids[1..]))
  }

  /** The elements of one list that are not in another, in order. */
  function Outside(xs: seq<nat>, ys: seq<nat>): (r: seq<nat>) {
    if xs == [] then []
    else if xs[0] in ys then Outside(xs[1..], ys)
    else [xs[0]] + Outside(xs[1..], ys)
  }

  lemma {:induction false} OutsideMembers(xs: seq<nat>, ys: seq<nat>)
    ensures forall x :: x in Outside(xs, ys) <==> x in xs && x !in ys
  {
    if xs != [] {
      OutsideMembers(xs[1..], ys);
      assert forall x :: x in xs <==> x == xs[0] || x in xs[1..];
    }
  }

  lemma {:induction false} OutsideSkip(xs: seq<nat>, y: nat, ys: seq<nat>)
    requires y !in xs
    ensures Outside(xs, [y] + ys) == Outside(xs, ys)
  {
    if xs != [] {
      OutsideSkip(xs[1..], y, ys);
    }
  }

  /** One comparison of the sorted-range difference. */
  lemma DifferenceStep(xs: seq<nat>, ys: seq<nat>)
    requires Ascending(xs) && Distinct(xs) && Ascending(ys) && xs != []
    ensures ys == [] || xs[0] < ys[0] ==> Outside(xs, ys) == [xs[0]] + Outside(xs[1..], ys)
    ensures ys != [] && xs[0] == ys[0] ==> Outside(xs, ys) == Outside(xs[1..], ys[1..])
    ensures ys != [] && xs[0] > ys[0] ==> Outside(xs, ys) == Outside(xs, ys[1..])
  {
    if ys != [] {
      assert ys == [ys[0]] + ys[1..];
      if xs[0] == ys[0] {
        OutsideSkip(xs[1..], ys[0], ys[1..]);
      } else if xs[0] > ys[0] {
        OutsideSkip(xs, ys[0], ys[1..]);
      }
    }
  }

  /** The sorted-range difference walks both lists once and agrees with the complement. */
  method SetDifference(xs: seq<nat>, ys: seq<nat>) returns (r: seq<nat>)
    requires Ascending(xs) && Distinct(xs) && Ascending(ys)
    ensures r == Outside(xs, ys)
  {
    r := [];
    var i, j := 0, 0;
    while i < |xs|
      invariant 0 <= i <= |xs| && 0 <= j <= |ys|
      invariant Outside(xs, ys) == r + Outside(xs[i..], ys[j..])
      decreases |xs| - i + |ys| - j
    {
      DifferenceStep(xs[i..], ys[j..]);
      assert xs[i..][1..] == xs[i + 1..];
      assert j < |ys| ==> ys[j..][1..] == ys[j + 1..];
      if j == |ys| || xs[i] < ys[j] {
        r := r + [xs[i]];
        i := i + 1;
      } else {
        if xs[i] <= ys[j] {
          i := i + 1;
        }
        j := j + 1;
      }
    }
  }

  function MissingIds(s: Setup, demands: seq<Demand>): seq<nat> {
    Outside(SortIds(s.TerritoryIds()), Ids(demands))
  }

  function MissingDemands(s: Setup, demands: seq<Demand>, fallback: seq<real>): (r: seq<Demand>)
    requires |fallback| == s.TerritoryCount()
    ensures |r| == |MissingIds(s, demands)|
  {
    var missing := MissingIds(s, demands);
    OutsideMembers(SortIds(s.TerritoryIds()), Ids(demands));
    seq(|missing|, i requires 0 <= i < |missing| =>
      assert missing[i] in s.TerritoryIds();
      Demand(missing[i], 0, fallback[Position(s.TerritoryIds(), missing[i])]))
  }

  lemma MissingAt(s: Setup, demands: seq<Demand>, fallback: seq<real>, i: nat)
    requires |fallback| == s.TerritoryCount() && i < |MissingIds(s, demands)|
    ensures var id := MissingIds(s, demands)[i];
            && id in s.TerritoryIds()
            && MissingDemands(s, demands, fallback)[i] == Demand(id, 0, fallback[Position(s.TerritoryIds(), id)])
  {
    OutsideMembers(SortIds(s.TerritoryIds()), Ids(demands));
    assert MissingIds(s, demands)[i] in MissingIds(s, demands);
  }

  /** The submitted demands followed by a zero demand, at last round's posted price, for each other territory. */
  function FilledDemands(s: Setup, demands: seq<Demand>, fallback: seq<real>): seq<Demand>
    requires |fallback| == s.TerritoryCount()
  {
    demands + MissingDemands(s, demands, fallback)
  }

  lemma {:induction false} OutsideDistinct(xs: seq<nat>, ys: seq<nat>)
    requires Distinct(xs)
    ensures Distinct(Outside(xs, ys))
  {
    if xs != [] {
      assert forall x :: x in xs[1..] ==> x != xs[0];
      OutsideDistinct(xs[1..], ys);
      OutsideMembers(xs[1..], ys);
    }
  }

  lemma {:induction false} MultiplicityOne(xs: seq<nat>)
    requires Distinct(xs)
    ensures forall x :: multiset(xs)[x] == if x in xs then 1 else 0
  {
    if xs != [] {
      assert xs == [xs[0]] + xs[1..];
      MultiplicityOne(xs[1..]);
    }
  }

  lemma FilledIds(s: Setup, demands: seq<Demand>, fallback: seq<real>)
    requires |fallback| == s.TerritoryCount()
    ensures Ids(FilledDemands(s, demands, fallback)) == Ids(demands) + MissingIds(s, demands)
  {
  }

  lemma FilledMembers(s: Setup, demands: seq<Demand>)
    requires DemandsWithin(s, demands)
    ensures forall x :: x in Ids(demands) + MissingIds(s, demands) <==> x in s.TerritoryIds()
  {
    OutsideMembers(SortIds(s.TerritoryIds()), Ids(demands));
    forall x | x in Ids(demands) ensures x in s.TerritoryIds() {
      var i :| 0 <= i < |demands| && Ids(demands)[i] == x;
    }
  }

  lemma AppendDistinct(xs: seq<nat>, ys: seq<nat>)
    requires Distinct(xs) && Distinct(ys)
    requires forall x :: x in ys ==> x !in xs
    ensures Distinct(xs + ys)
  {
    forall i, j | 0 <= i < j < |xs + ys| ensures (xs + ys)[i] != (xs + ys)[j] {
      if j >= |xs| {
        assert ys[j - |xs|] in ys;
      }
    }
  }

  /** After filling, every territory is mentioned exactly once. */
  lemma FilledOnce(s: Setup, demands: seq<Demand>, fallback: seq<real>)
    requires Distinct(s.TerritoryIds()) && DemandsWithin(s, demands)
    requires |fallback| == s.TerritoryCount()
    ensures Distinct(Ids(FilledDemands(s, demands, fallback)))
    ensures forall x :: x in Ids(FilledDemands(s, demands, fallback)) <==> x in s.TerritoryIds()
    ensures multiset(Ids(FilledDemands(s, demands, fallback))) == multiset(s.TerritoryIds())
  {
    var ids := Ids(FilledDemands(s, demands, fallback));
    FilledIds(s, demands, fallback);
    FilledMembers(s, demands);
    OutsideDistinct(SortIds(s.TerritoryIds()), Ids(demands));
    OutsideMembers(SortIds(s.TerritoryIds()), Ids(demands));
    AppendDistinct(Ids(demands), MissingIds(s, demands));
    MultiplicityOne(ids);
    MultiplicityOne(s.TerritoryIds());
  }

  /** Filling changes no submitted demand, and an added one asks for nothing at the fallback price. */
  lemma FilledTarget(s: Setup, demands: seq<Demand>, fallback: seq<real>, t: nat)
    requires Distinct(s.TerritoryIds()) && DemandsWithin(s, demands)
    requires |fallback| == s.TerritoryCount() && t < s.TerritoryCount()
    ensures var id := s.TerritoryIds()[t];
            TargetOf(FilledDemands(s, demands, fallback), id, fallback[t]) == TargetOf(demands, id, fallback[t])
  {
    var id, filled := s.TerritoryIds()[t], FilledDemands(s, demands, fallback);
    FilledIds(s, demands, fallback);
    FilledOnce(s, demands, fallback);
    PositionOfDistinct(s.TerritoryIds(), t);
    var i := Position(Ids(filled), id);
    if i < |demands| {
      assert Ids(demands)[i] == id;
      PositionOfDistinct(Ids(demands), i);
    } else {
      assert forall j :: 0 <= j < |demands| ==> Ids(filled)[j] == Ids(demands)[j];
    }
  }

  /** A filled list is as acceptable as the submitted one and asks for the same. */
  lemma FilledTargets(s: Setup, demands: seq<Demand>, fallback: seq<real>)
    requires Distinct(s.TerritoryIds()) && DemandsWithin(s, demands)
    requires |fallback| == s.TerritoryCount()
    ensures demands <= FilledDemands(s, demands, fallback)
    ensures TargetRow(s, FilledDemands(s, demands, fallback), fallback) == TargetRow(s, demands, fallback)
    ensures DemandsWithin(s, FilledDemands(s, demands, fallback))
  {
    var filled := FilledDemands(s, demands, fallback);
    FilledOnce(s, demands, fallback);
    forall t | 0 <= t < s.TerritoryCount()
      ensures TargetRow(s, filled, fallback)[t] == TargetRow(s, demands, fallback)[t]
    {
      FilledTarget(s, demands, fallback, t);
    }
    forall i | 0 <= i < |filled|
      ensures var t := Position(s.TerritoryIds(), filled[i].territoryId);
              t < s.TerritoryCount() && filled[i].quantity <= s.Supply()[t]
    {
      assert Ids(filled)[i] in s.TerritoryIds();
    }
  }

  lemma {:induction false} OutsideSameMembers(xs: seq<nat>, ys: seq<nat>, zs: seq<nat>)
    requires forall x :: x in ys <==> x in zs
    ensures Outside(xs, ys) == Outside(xs, zs)
  {
    if xs != [] {
      OutsideSameMembers(xs[1..], ys, zs);
    }
  }

  /** A demand list that mentions every territory exactly once. */
  predicate Complete(s: Setup, demands: seq<Demand>) {
    && DemandsWithin(s, demands)
    && forall t :: 0 <= t < s.TerritoryCount() ==> s.TerritoryIds()[t] in Ids(demands)
  }

  lemma FilledComplete(s: Setup, demands: seq<Demand>, fallback: seq<real>)
    requires Distinct(s.TerritoryIds()) && DemandsWithin(s, demands)
    requires |fallback| == s.TerritoryCount()
    ensures Complete(s, FilledDemands(s, demands, fallback))
  {
    FilledOnce(s, demands, fallback);
    FilledTargets(s, demands, fallback);
  }
}
