/** The random assignment of channels to winning bidders in one territory (demo/chaincode/fpc/evaluate.cpp). */
module Assignment {
  import opened Basics
  import opened Tally

  const UNASSIGNED := -1

  /** How often a value occurs. */
  function Count(row: seq<int>, v: int): nat {
    if row == [] then 0 else (if row[0] == v then 1 else 0) + Count(row[1..], v)
  }

  lemma {:induction false} CountUpdate(row: seq<int>, i: nat, v: int, x: int)
    requires i < |row|
    ensures Count(row[i := v], x) ==
            Count(row, x) - (if row[i] == x then 1 else 0) + (if v == x then 1 else 0)
  {
    if i == 0 {
      assert row[i := v][1..] == row[1..];
    } else {
      assert row[i := v][1..] == row[1..][i - 1 := v];
      CountUpdate(row[1..], i - 1, v, x);
    }
  }

  lemma {:induction false} CountConstant(n: nat, v: int, x: int)
    ensures Count(seq(n, _ => v), x) == if v == x then n else 0
  {
    if n > 0 {
      assert seq(n, _ => v)[1..] == seq(n - 1, _ => v);
      CountConstant(n - 1, v, x);
    }
  }

  lemma {:induction false} CountZero(row: seq<int>, v: int)
    requires Count(row, v) == 0
    ensures v !in row
  {
    if row != [] {
      CountZero(row[1..], v);
    }
  }

  // ----- shuffling the channel indexes -----

  /** A list of all indexes below its length, each once. */
  predicate Permutation(p: seq<nat>) {
    && (forall i :: 0 <= i < |p| ==> p[i] < |p|)
    && (forall i, j :: 0 <= i < j < |p| ==> p[i] != p[j])
  }

  function Swap(p: seq<nat>, i: nat, j: nat): (q: seq<nat>)
    requires i < |p| && j < |p|
    ensures |q| == |p|
    ensures Permutation(p) ==> Permutation(q)
  {
    p[i := p[j]][j := p[i]]
  }

  /** A random value reduced to an index. */
  function Draw(d: nat, n: nat): (r: nat)
    requires n > 0
    ensures r < n && d == d / n * n + r
  {
    d % n
  }

  /** Swap each position from j on with the position drawn for it. */
  function ShuffleFrom(p: seq<nat>, j: nat, draws: seq<nat>): (q: seq<nat>)
    requires j <= |p| == |draws|
    ensures |q| == |p|
    ensures Permutation(p) ==> Permutation(q)
    decreases |p| - j
  {
    if j == |p| then p else ShuffleFrom(Swap(p, j, Draw(draws[j], |p|)), j + 1, draws)
  }

  function Indexes(n: nat): (p: seq<nat>)
    ensures |p| == n && Permutation(p)
  {
    seq(n, i => i)
  }

  method RandomChannelIndexes(channels: nat, draws: seq<nat>) returns (p: seq<nat>)
    requires |draws| == channels
    ensures p == ShuffleFrom(Indexes(channels), 0, draws)
    ensures |p| == channels && Permutation(p)
  {
    p := [];
    for j := 0 to channels
      invariant p == Indexes(channels)[..j]
    {
      p := p + [j];
    }
    assert p == Indexes(channels);
    for j := 0 to channels
      invariant |p| == channels
      invariant ShuffleFrom(p, j, draws) == ShuffleFrom(Indexes(channels), 0, draws)
    {
      var r := Draw(draws[j], channels);
      assert ShuffleFrom(p, j, draws) == ShuffleFrom(Swap(p, j, r), j + 1, draws);
      var a := p[j];
      p := p[j := p[r]];
      p := p[r := a];
    }
  }

  function Below(n: nat): (r: set<nat>)
    ensures |r| == n && forall x: nat :: x in r <==> x < n
  {
    if n == 0 then {} else Below(n - 1) + {n - 1}
  }

  function Elements(p: seq<nat>): (r: set<nat>)
    ensures forall x :: x in r <==> x in p
    ensures Distinct(p) ==> |r| == |p|
  {
    if p == [] then {}
    else
      var n := |p| - 1;
      assert p == p[..n] + [p[n]];
      assert Distinct(p) ==> p[n] !in p[..n];
      Elements(p[..n]) + {p[n]}
  }

  /** A permutation lists every index. */
  lemma ListsAll(p: seq<nat>, v: nat)
    requires Permutation(p) && v < |p|
    ensures v in p
  {
    if v !in p {
      SubsetSize(Elements(p), Below(|p|) - {v});
    }
  }

  lemma {:induction false} SubsetSize(a: set<nat>, b: set<nat>)
    requires a <= b
    ensures |a| <= |b|
  {
    if a != {} {
      var x :| x in a;
      SubsetSize(a - {x}, b - {x});
    }
  }

  /** Only the draws from j on matter to the swaps from j on. */
  lemma {:induction false} LaterDraws(p: seq<nat>, j: nat, draws: seq<nat>, draws': seq<nat>)
    requires j <= |p| == |draws| == |draws'| && draws[j..] == draws'[j..]
    ensures ShuffleFrom(p, j, draws) == ShuffleFrom(p, j, draws')
    decreases |p| - j
  {
    if j < |p| {
      assert draws[j] == draws[j..][0] == draws'[j..][0] == draws'[j];
      assert draws[j + 1..] == draws[j..][1..] == draws'[j..][1..] == draws'[j + 1..];
      LaterDraws(Swap(p, j, Draw(draws[j], |p|)), j + 1, draws, draws');
    }
  }

  /** Two arrangements of the same length have the same elements before j. */
  predicate Agree(p: seq<nat>, q: seq<nat>, j: nat) {
    j <= |p| == |q| && forall i :: 0 <= i < j ==> p[i] == q[i]
  }

  lemma SmallDraw(r: nat, n: nat)
    requires r < n
    ensures Draw(r, n) == r
  {
  }

  /** The element wanted at j is not before j; swapping it there makes one more position agree. */
  lemma PlaceOf(wanted: seq<nat>, p: seq<nat>, j: nat) returns (r: nat)
    requires Permutation(wanted) && Permutation(p) && Agree(p, wanted, j) && j < |p|
    ensures r < |p| && Agree(Swap(p, j, r), wanted, j + 1)
  {
    ListsAll(p, wanted[j]);
    r :| r < |p| && p[r] == wanted[j];
  }

  /** From any arrangement that agrees with the wanted one before j, some draws lead to the wanted one. */
  lemma {:induction false} DrawsFromHere(wanted: seq<nat>, p: seq<nat>, j: nat) returns (draws: seq<nat>)
    requires Permutation(wanted) && Permutation(p) && Agree(p, wanted, j)
    ensures |draws| == |p| && ShuffleFrom(p, j, draws) == wanted
    decreases |p| - j
  {
    if j == |p| {
      draws := Indexes(|p|);
    } else {
      var r := PlaceOf(wanted, p, j);
      var next := Swap(p, j, r);
      var later := DrawsFromHere(wanted, next, j + 1);
      draws := later[j := r];
      LaterDraws(next, j + 1, draws, later);
      SmallDraw(r, |p|);
      hide Permutation, Agree, Draw;
    }
  }

  /** Every order of the channels is the outcome of some draws. */
  lemma EveryOrderIsDrawn(wanted: seq<nat>)
    requires Permutation(wanted)
    ensures exists draws :: |draws| == |wanted| && ShuffleFrom(Indexes(|wanted|), 0, draws) == wanted
  {
    var draws := DrawsFromHere(wanted, Indexes(|wanted|), 0);
  }

  /** Three channels, drawn values 1, 2 and 4: the swaps are 0 with 1, 1 with 2, and 2 with 1. */
  lemma ThreeSwaps()
    ensures ShuffleFrom(Indexes(3), 0, [1, 2, 4]) == [1, 0, 2]
  {
    var draws := [1, 2, 4];
    assert Indexes(3) == [0, 1, 2];
    assert Swap([0, 1, 2], 0, 1) == [1, 0, 2] && Swap([1, 0, 2], 1, 2) == [1, 2, 0];
    assert Swap([1, 2, 0], 2, 1) == [1, 0, 2];
    assert ShuffleFrom([1, 0, 2], 3, draws) == [1, 0, 2];
    assert ShuffleFrom([1, 2, 0], 2, draws) == [1, 0, 2];
    assert ShuffleFrom([1, 0, 2], 1, draws) == [1, 0, 2];
  }

  // ----- handing out channels -----

  /** The first k shuffled channels are owned, the others are not. */
  predicate HandedOut(row: seq<int>, p: seq<nat>, k: nat) {
    && |row| == |p| && Permutation(p) && k <= |p|
    && (forall i :: k <= i < |p| ==> row[p[i]] == UNASSIGNED)
    && Count(row, UNASSIGNED) == |p| - k
  }

  /** What a finished row promises: each bidder owns exactly its licences, the rest is unassigned. */
  predicate Fair(row: seq<int>, licences: seq<nat>) {
    && (forall j :: 0 <= j < |licences| ==> Count(row, j) == licences[j])
    && Sum(licences) <= |row|
    && Count(row, UNASSIGNED) == |row| - Sum(licences)
    && (forall c :: 0 <= c < |row| ==> UNASSIGNED <= row[c] < |licences|)
  }

  lemma {:induction false} SumSplit(s: seq<nat>, j: nat)
    requires j < |s|
    ensures Sum(s[..j + 1]) == Sum(s[..j]) + s[j]
    ensures Sum(s[..j + 1]) <= Sum(s)
    decreases |s| - j
  {
    assert s[..j + 1] == s[..j] + [s[j]];
    SumAppend(s[..j], s[j]);
    if j + 1 < |s| {
      SumSplit(s, j + 1);
    } else {
      assert s[..j + 1] == s;
    }
  }

  /** Licences handed out to bidder i once the bidders before j are served and j has k channels. */
  function Served(licences: seq<nat>, j: nat, k: nat, i: nat): nat
    requires i < |licences|
  {
    if i < j then licences[i] else if i == j then k else 0
  }

  predicate Dealt(row: seq<int>, p: seq<nat>, licences: seq<nat>, j: nat, k: nat) {
    && j <= |licences| && Sum(licences[..j]) + k <= |p|
    && HandedOut(row, p, Sum(licences[..j]) + k)
    && (forall i :: 0 <= i < |licences| ==> Count(row, i) == Served(licences, j, k, i))
    && (forall c :: 0 <= c < |row| ==> UNASSIGNED <= row[c] < |licences|)
  }

  /** The next channel was unassigned, and goes to bidder j alone. */
  lemma DealOne(row: seq<int>, p: seq<nat>, licences: seq<nat>, j: nat, k: nat)
    requires j < |licences| && Dealt(row, p, licences, j, k)
    requires Sum(licences[..j]) + k < |p|
    ensures var next := p[Sum(licences[..j]) + k];
            next < |row| && row[next] == UNASSIGNED && Dealt(row[next := j], p, licences, j, k + 1)
  {
    var n := Sum(licences[..j]) + k;
    CountUpdate(row, p[n], j, UNASSIGNED);
    var row', k' := row[p[n] := j], k + 1;
    forall i: nat | i < |licences| ensures Count(row', i) == Served(licences, j, k', i) {
      CountUpdate(row, p[n], j, i);
    }
  }

  lemma NothingDealt(p: seq<nat>, licences: seq<nat>)
    requires Permutation(p)
    ensures Dealt(seq(|p|, _ => UNASSIGNED), p, licences, 0, 0)
  {
    var row := seq(|p|, _ => UNASSIGNED);
    CountConstant(|p|, UNASSIGNED, UNASSIGNED);
    forall i: nat | i < |licences| ensures Count(row, i) == Served(licences, 0, 0, i) {
      CountConstant(|p|, UNASSIGNED, i);
    }
  }

  /** Give each bidder in turn the next channels of the shuffled list. */
  function Deal(row: seq<int>, p: seq<nat>, licences: seq<nat>, j: nat, k: nat): (r: seq<int>)
    requires Dealt(row, p, licences, j, k)
    requires Sum(licences) <= |p| && (j < |licences| ==> k <= licences[j]) && (j == |licences| ==> k == 0)
    ensures |r| == |p| && Fair(r, licences)
    decreases |licences| - j, if j < |licences| then licences[j] - k else 0
  {
    assert licences[..|licences|] == licences;
    if j == |licences| then row
    else
      SumSplit(licences, j);
      if k == licences[j] then Deal(row, p, licences, j + 1, 0)
      else
        DealOne(row, p, licences, j, k);
        Deal(row[p[Sum(licences[..j]) + k] := j], p, licences, j, k + 1)
  }

  lemma DealEnd(row: seq<int>, p: seq<nat>, licences: seq<nat>)
    requires Dealt(row, p, licences, |licences|, 0) && Sum(licences) <= |p|
    ensures Deal(row, p, licences, |licences|, 0) == row
  {
  }

  lemma DealStep(row: seq<int>, p: seq<nat>, licences: seq<nat>, j: nat, k: nat)
    requires Dealt(row, p, licences, j, k) && Sum(licences) <= |p|
    requires j < |licences| && k <= licences[j]
    ensures k == licences[j] ==>
              && Dealt(row, p, licences, j + 1, 0)
              && Deal(row, p, licences, j, k) == Deal(row, p, licences, j + 1, 0)
    ensures k < licences[j] ==>
              && Sum(licences[..j]) + k < |p| && p[Sum(licences[..j]) + k] < |row|
              && var row' := row[p[Sum(licences[..j]) + k] := j];
                 && Dealt(row', p, licences, j, k + 1)
                 && Deal(row, p, licences, j, k) == Deal(row', p, licences, j, k + 1)
  {
    SumSplit(licences, j);
    if k < licences[j] {
      DealOne(row, p, licences, j, k);
    }
  }

  /** Which bidder owns each channel of a territory. */
  function Owners(p: seq<nat>, licences: seq<nat>): (row: seq<int>)
    requires Permutation(p) && Sum(licences) <= |p|
    ensures |row| == |p| && Fair(row, licences)
  {
    NothingDealt(p, licences);
    Deal(seq(|p|, _ => UNASSIGNED), p, licences, 0, 0)
  }

  /** Position i of the shuffled list falls to bidder b. */
  predicate FallsTo(licences: seq<nat>, i: nat, b: nat) {
    b < |licences| && Sum(licences[..b]) <= i < Sum(licences[..b + 1])
  }

  lemma {:induction false} PrefixSums(licences: seq<nat>, b: nat, j: nat)
    requires b <= j <= |licences|
    ensures Sum(licences[..b]) <= Sum(licences[..j])
  {
    if b < j {
      PrefixSums(licences, b, j - 1);
      SumSplit(licences, j - 1);
    }
  }

  lemma FallsToOne(licences: seq<nat>, i: nat, b: nat, c: nat)
    requires FallsTo(licences, i, b) && FallsTo(licences, i, c)
    ensures b == c
  {
    if b < c {
      PrefixSums(licences, b + 1, c);
    } else if c < b {
      PrefixSums(licences, c + 1, b);
    }
  }

  /** What is dealt already stays, and what is left falls to the bidders in turn. */
  lemma {:induction false} DealPlaces(row: seq<int>, p: seq<nat>, licences: seq<nat>, j: nat, k: nat, i: nat)
    requires Dealt(row, p, licences, j, k) && Sum(licences) <= |p| && i < |p|
    requires (j < |licences| ==> k <= licences[j]) && (j == |licences| ==> k == 0)
    ensures var r := Deal(row, p, licences, j, k);
            && (i < Sum(licences[..j]) + k || i >= Sum(licences) ==> r[p[i]] == row[p[i]])
            && (forall b :: i >= Sum(licences[..j]) + k && FallsTo(licences, i, b) ==> r[p[i]] == b)
    decreases |licences| - j, if j < |licences| then licences[j] - k else 0
  {
    hide Fair, Count, Served;
    assert licences[..|licences|] == licences;
    if j == |licences| {
      forall b: nat | FallsTo(licences, i, b) ensures i < Sum(licences) {
        PrefixSums(licences, b + 1, j);
      }
    } else {
      SumSplit(licences, j);
      var n := Sum(licences[..j]) + k;
      DealStep(row, p, licences, j, k);
      if k == licences[j] {
        DealPlaces(row, p, licences, j + 1, 0, i);
      } else {
        DealPlaces(row[p[n] := j], p, licences, j, k + 1, i);
        forall b: nat | i == n && FallsTo(licences, i, b) ensures b == j {
          FallsToOne(licences, i, b, j);
        }
      }
    }
  }

  /** The first bidder gets the first channels of the shuffled list, the next one the next; the rest is unassigned. */
  lemma OwnersExactly(p: seq<nat>, licences: seq<nat>, i: nat)
    requires Permutation(p) && Sum(licences) <= |p| && i < |p|
    ensures forall b :: FallsTo(licences, i, b) ==> Owners(p, licences)[p[i]] == b
    ensures i >= Sum(licences) ==> Owners(p, licences)[p[i]] == UNASSIGNED
  {
    NothingDealt(p, licences);
    DealPlaces(seq(|p|, _ => UNASSIGNED), p, licences, 0, 0, i);
  }

  /**
   * The walk over the bidders. The shuffled list is never overrun when the licences fit the supply,
   * and a channel that is handed out was unassigned before.
   */
  method AssignChannels(p: seq<nat>, licences: seq<nat>) returns (row: seq<int>)
    requires Permutation(p)
    requires Sum(licences) <= |p|
    ensures row == Owners(p, licences)
  {
    row := seq(|p|, _ => UNASSIGNED);
    NothingDealt(p, licences);
    var next := 0;
    assert Deal(row, p, licences, 0, 0) == Owners(p, licences);
    assert Sum(licences[..0]) == 0;
    hide Dealt, Fair, Permutation, Deal, Owners, Sum, Count;
    for j := 0 to |licences|
      invariant next == Sum(licences[..j]) && |row| == |p|
      invariant Dealt(row, p, licences, j, 0)
      invariant Deal(row, p, licences, j, 0) == Owners(p, licences)
    {
      SumSplit(licences, j);
      for k := 0 to licences[j]
        invariant next == Sum(licences[..j]) + k && |row| == |p|
        invariant Dealt(row, p, licences, j, k)
        invariant Deal(row, p, licences, j, k) == Owners(p, licences)
      {
        DealStep(row, p, licences, j, k);
        row := row[p[next] := j];
        next := next + 1;
      }
      DealStep(row, p, licences, j, licences[j]);
    }
    DealEnd(row, p, licences);
  }

  /** A territory whose licences use up the supply has no unassigned channel. */
  lemma FullyAssigned(row: seq<int>, licences: seq<nat>)
    requires Fair(row, licences) && Sum(licences) == |row|
    ensures forall c :: 0 <= c < |row| ==> 0 <= row[c] < |licences|
  {
    CountZero(row, UNASSIGNED);
  }

  /** Impairments of at most 100 percent keep a channel's price between zero and the posted price. */
  function ChannelPrice(posted: real, impairment: nat): (price: real)
    ensures price * 100.0 == posted * (100 - impairment) as real
    ensures posted >= 0.0 && impairment <= 100 ==> 0.0 <= price <= posted
  {
    var factor := (100.0 - impairment as real) / 100.0;
    assert factor * 100.0 == (100 - impairment) as real;
    PriceShare(posted, factor);
    posted * factor
  }

  lemma PriceShare(posted: real, factor: real)
    ensures posted * factor * 100.0 == posted * (factor * 100.0)
    ensures posted >= 0.0 && 0.0 <= factor <= 1.0 ==> 0.0 <= posted * factor <= posted
  {
    if posted >= 0.0 && 0.0 <= factor <= 1.0 {
      assert posted * (1.0 - factor) >= 0.0;
      assert posted * (1.0 - factor) == posted - posted * factor;
    }
  }
}
