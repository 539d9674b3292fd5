/** Sums over vectors and over the rows and columns of a licence table. */
module Tally {

  type Table = seq<seq<nat>>

  function Min(a: int, b: int): int {
    if a <= b then a else b
  }

  function Abs(x: int): nat {
    if x < 0 then -x else x
  }

  function Sum(s: seq<nat>): nat {
    if s == [] then 0 else s[0] + Sum(s[1..])
  }

  /** Every row of the table has the given width. */
  predicate Rectangular<T>(m: seq<seq<T>>, rows: nat, columns: nat) {
    |m| == rows && forall b :: 0 <= b < rows ==> |m[b]| == columns
  }

  function Column(m: Table, t: nat): (c: seq<nat>)
    requires forall b :: 0 <= b < |m| ==> t < |m[b]|
  {
    seq(|m|, b requires 0 <= b < |m| => m[b][t])
  }

  lemma Replaced<T>(x: T, y: T, z: T)
    ensures [x, y][1 := z] == [x, z] && [x, y][0 := z] == [z, y]
  {
  }

  function SetCell(m: Table, b: nat, t: nat, v: nat): Table
    requires b < |m| && t < |m[b]|
  {
    var row: seq<nat> := m[b];
    var row': seq<nat> := row[t := v];
    m[b := row']
  }

  lemma {:induction false} SumUpdate(s: seq<nat>, i: nat, v: nat)
    requires i < |s|
    ensures Sum(s[i := v]) == Sum(s) - s[i] + v
  {
    if i == 0 {
      assert s[i := v][1..] == s[1..];
    } else {
      assert s[i := v][1..] == s[1..][i - 1 := v];
      SumUpdate(s[1..], i - 1, v);
    }
  }

  lemma {:induction false} SumAppend(s: seq<nat>, v: nat)
    ensures Sum(s + [v]) == Sum(s) + v
  {
    if s != [] {
      assert (s + [v])[1..] == s[1..] + [v];
      SumAppend(s[1..], v);
    }
  }

  lemma {:induction false} SumBound(s: seq<nat>, bound: seq<nat>)
    requires |s| == |bound|
    requires forall i :: 0 <= i < |s| ==> s[i] <= bound[i]
    ensures Sum(s) <= Sum(bound)
  {
    if s != [] {
      SumBound(s[1..], bound[1..]);
    }
  }

  /** One cell of a table changes one row sum and one column sum, by the same amount. */
  lemma CellUpdate(m: Table, rows: nat, columns: nat, b: nat, t: nat, v: nat)
    requires Rectangular(m, rows, columns)
    requires b < rows && t < columns
    ensures var m' := SetCell(m, b, t, v);
            && Rectangular(m', rows, columns)
            && Sum(m'[b]) == Sum(m[b]) - m[b][t] + v
            && Sum(Column(m', t)) == Sum(Column(m, t)) - m[b][t] + v
            && (forall u :: 0 <= u < columns && u != t ==> Column(m', u) == Column(m, u))
  {
    var m' := SetCell(m, b, t, v);
    SumUpdate(m[b], t, v);
    assert Column(m', t) == Column(m, t)[b := v];
    SumUpdate(Column(m, t), b, v);
  }
}
