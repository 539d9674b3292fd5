/** The byte-wise order of keys, and ordered maps as ascending lists of entries (std::string and std::map). */
module ByteOrder {

  type Key = string

  /** Lexicographic order of byte strings. */
  predicate Less(a: Key, b: Key) {
    if b == [] then false
    else if a == [] then true
    else if a[0] != b[0] then a[0] < b[0]
    else Less(a[1..], b[1..])
  }

  /** The order of dictionaries: a proper beginning comes first, or the smaller byte at the first difference. */
  ghost predicate ComesBefore(a: Key, b: Key) {
    (a <= b && a != b) || exists i :: 0 <= i < |a| && i < |b| && a[..i] == b[..i] && a[i] < b[i]
  }

  lemma ComesBeforeTail(a: Key, b: Key)
    requires a != [] && b != [] && a[0] == b[0]
    ensures ComesBefore(a, b) <==> ComesBefore(a[1..], b[1..])
  {
    var x, y := a[1..], b[1..];
    assert a == [a[0]] + x && b == [b[0]] + y;
    if i :| 0 <= i < |a| && i < |b| && a[..i] == b[..i] && a[i] < b[i] {
      assert x[..i - 1] == a[..i][1..] && y[..i - 1] == b[..i][1..];
      assert x[i - 1] < y[i - 1];
    }
    if i :| 0 <= i < |x| && i < |y| && x[..i] == y[..i] && x[i] < y[i] {
      assert a[..i + 1] == [a[0]] + x[..i] && b[..i + 1] == [b[0]] + y[..i];
      assert a[i + 1] < b[i + 1];
    }
  }

  /** The recursive comparison is the order of dictionaries. */
  lemma {:induction false} LessExactly(a: Key, b: Key)
    ensures Less(a, b) <==> ComesBefore(a, b)
  {
    if a != [] && b != [] {
      if a[0] == b[0] {
        LessExactly(a[1..], b[1..]);
        ComesBeforeTail(a, b);
      } else {
        assert a[..0] == b[..0];
        assert forall i :: 0 < i && i <= |a| && i <= |b| && a[..i] == b[..i] ==> a[..i][0] == b[..i][0];
      }
    }
  }

  lemma {:induction false} LessIrreflexive(a: Key)
    ensures !Less(a, a)
  {
    if a != [] {
      LessIrreflexive(a[1..]);
    }
  }

  lemma {:induction false} LessTransitive(a: Key, b: Key, c: Key)
    requires Less(a, b) && Less(b, c)
    ensures Less(a, c)
  {
    if a != [] && a[0] == b[0] && b[0] == c[0] {
      LessTransitive(a[1..], b[1..], c[1..]);
    }
  }

  lemma {:induction false} LessTotal(a: Key, b: Key)
    ensures Less(a, b) || a == b || Less(b, a)
  {
    if a != [] && b != [] && a[0] == b[0] {
      LessTotal(a[1..], b[1..]);
      assert a == [a[0]] + a[1..] && b == [b[0]] + b[1..];
    }
  }

  lemma {:induction false} PrefixNotLess(p: Key, a: Key)
    requires p <= a
    ensures !Less(a, p)
  {
    if p != [] {
      PrefixNotLess(p[1..], a[1..]);
    }
  }

  /** Keys that share a prefix are contiguous: nothing without the prefix lies between the prefix and such a key. */
  lemma {:induction false} PrefixContiguous(p: Key, a: Key, b: Key)
    requires !Less(a, p) && Less(a, b) && p <= b
    ensures p <= a
  {
    if p != [] {
      PrefixContiguous(p[1..], a[1..], b[1..]);
      assert p == [p[0]] + p[1..] && a == [a[0]] + a[1..];
    }
  }

  /** A common beginning does not change the order. */
  lemma {:induction false} LessAfterPrefix(p: Key, a: Key, b: Key)
    ensures Less(p + a, p + b) <==> Less(a, b)
  {
    if p == [] {
      assert p + a == a && p + b == b;
    } else {
      assert (p + a)[1..] == p[1..] + a && (p + b)[1..] == p[1..] + b;
      LessAfterPrefix(p[1..], a, b);
    }
  }

  // ----- ordered maps -----

  datatype Item<V> = Item(key: Key, value: V)

  predicate Ordered<V>(items: seq<Item<V>>) {
    forall i, j :: 0 <= i < j < |items| ==> Less(items[i].key, items[j].key)
  }

  predicate HasKey<V>(items: seq<Item<V>>, k: Key) {
    exists i :: 0 <= i < |items| && items[i].key == k
  }

  /** The keys of an ordered list stand in the order of dictionaries. */
  lemma OrderedExactly<V>(items: seq<Item<V>>)
    ensures Ordered(items) <==> forall i, j :: 0 <= i < j < |items| ==> ComesBefore(items[i].key, items[j].key)
  {
    hide Less, ComesBefore;
    forall i, j | 0 <= i < j < |items|
      ensures Less(items[i].key, items[j].key) <==> ComesBefore(items[i].key, items[j].key)
    {
      LessExactly(items[i].key, items[j].key);
    }
  }

  /** The list holds exactly the entries of the map, in ascending key order. */
  ghost predicate Represents<V>(items: seq<Item<V>>, m: map<Key, V>) {
    && Ordered(items)
    && (forall i :: 0 <= i < |items| ==> items[i].key in m && m[items[i].key] == items[i].value)
    && (forall k :: k in m ==> HasKey(items, k))
  }

  /** Assign a value to a key, keeping the order. */
  function Put<V>(items: seq<Item<V>>, k: Key, v: V): (r: seq<Item<V>>)
    ensures forall x :: x in r ==> x == Item(k, v) || x in items
  {
    if items == [] || Less(k, items[0].key) then [Item(k, v)] + items
    else if items[0].key == k then [Item(k, v)] + items[1..]
    else [items[0]] + Put(items[1..], k, v)
  }

  lemma ConsOrdered<V>(x: Item<V>, rest: seq<Item<V>>)
    requires Ordered(rest)
    requires forall y :: y in rest ==> Less(x.key, y.key)
    ensures Ordered([x] + rest)
  {
    var s := [x] + rest;
    forall i, j | 0 <= i < j < |s| ensures Less(s[i].key, s[j].key) {
      assert s[j] == rest[j - 1] && rest[j - 1] in rest;
      if i > 0 {
        assert s[i] == rest[i - 1];
      }
    }
  }

  lemma {:induction false} PutOrdered<V>(items: seq<Item<V>>, k: Key, v: V)
    requires Ordered(items)
    ensures Ordered(Put(items, k, v))
  {
    if items == [] {
    } else {
      var x, rest := items[0], items[1..];
      assert forall i :: 0 <= i < |rest| ==> rest[i] == items[i + 1];
      if Less(k, x.key) {
        forall y | y in items ensures Less(k, y.key) {
          if y != x {
            LessTransitive(k, x.key, y.key);
          }
        }
        ConsOrdered(Item(k, v), items);
      } else if x.key == k {
        ConsOrdered(Item(k, v), rest);
      } else {
        LessTotal(x.key, k);
        PutOrdered(rest, k, v);
        ConsOrdered(x, Put(rest, k, v));
      }
    }
  }

  lemma {:induction false} PutMembers<V>(items: seq<Item<V>>, k: Key, v: V)
    requires Ordered(items)
    ensures forall x :: x in Put(items, k, v) <==> x == Item(k, v) || (x in items && x.key != k)
  {
    if items != [] {
      var x, rest := items[0], items[1..];
      assert items == [x] + rest;
      assert forall i :: 0 <= i < |rest| ==> rest[i] == items[i + 1];
      LessIrreflexive(k);
      if Less(k, x.key) {
        forall y | y in items ensures y.key != k {
          if y != x {
            LessTransitive(k, x.key, y.key);
          }
        }
      } else if x.key != k {
        PutMembers(rest, k, v);
      }
    }
  }

  lemma MemberHasKey<V>(items: seq<Item<V>>, x: Item<V>)
    requires x in items
    ensures HasKey(items, x.key)
  {
    var i :| 0 <= i < |items| && items[i] == x;
  }

  /** Assigning in the ordered list is assigning in the map. */
  lemma PutRepresents<V>(items: seq<Item<V>>, m: map<Key, V>, k: Key, v: V)
    requires Represents(items, m)
    ensures Represents(Put(items, k, v), m[k := v])
  {
    PutOrdered(items, k, v);
    PutMembers(items, k, v);
    var r := Put(items, k, v);
    forall i | 0 <= i < |r| ensures r[i].key in m[k := v] && m[k := v][r[i].key] == r[i].value {
      assert r[i] in r;
    }
    forall l | l in m[k := v] ensures HasKey(r, l) {
      if l == k {
        MemberHasKey(r, Item(k, v));
      } else {
        assert HasKey(items, l);
        var i :| 0 <= i < |items| && items[i].key == l;
        assert items[i] in r;
        MemberHasKey(r, items[i]);
      }
    }
  }

  /** The position of the first entry that is not before the key. */
  method LowerBound<V>(items: seq<Item<V>>, k: Key) returns (i: nat)
    requires Ordered(items)
    ensures i <= |items|
    ensures forall j :: 0 <= j < i ==> Less(items[j].key, k)
    ensures forall j :: i <= j < |items| ==> !Less(items[j].key, k)
  {
    i := 0;
    while i < |items| && Less(items[i].key, k)
      invariant 0 <= i <= |items|
      invariant forall j :: 0 <= j < i ==> Less(items[j].key, k)
    {
      i := i + 1;
    }
    forall j | i <= j < |items| ensures !Less(items[j].key, k) {
      if i < j && Less(items[j].key, k) {
        LessTransitive(items[i].key, items[j].key, k);
      }
    }
  }

  /** Two ascending lists with the same contents are the same list. */
  lemma {:induction false} OrderedUnique<V>(xs: seq<Item<V>>, ys: seq<Item<V>>)
    requires Ordered(xs) && Ordered(ys)
    requires forall x :: x in xs <==> x in ys
    ensures xs == ys
  {
    assert xs != [] ==> xs[0] in xs;
    assert ys != [] ==> ys[0] in ys;
    if xs != [] && ys != [] {
      SameHead(xs, ys);
      assert xs == [xs[0]] + xs[1..] && ys == [ys[0]] + ys[1..];
      forall x ensures x in xs[1..] <==> x in ys[1..] {
        TailMembers(xs, x);
        TailMembers(ys, x);
      }
      OrderedUnique(xs[1..], ys[1..]);
    }
  }

  lemma TailMembers<V>(xs: seq<Item<V>>, x: Item<V>)
    requires Ordered(xs) && xs != []
    ensures x in xs[1..] <==> x in xs && x != xs[0]
  {
    LessIrreflexive(xs[0].key);
    if x in xs[1..] {
      var i :| 0 <= i < |xs[1..]| && xs[1..][i] == x;
      assert xs[i + 1] == x && Less(xs[0].key, xs[i + 1].key);
    }
  }

  lemma SameHead<V>(xs: seq<Item<V>>, ys: seq<Item<V>>)
    requires Ordered(xs) && Ordered(ys) && xs != [] && ys != []
    requires forall x :: x in xs <==> x in ys
    ensures xs[0] == ys[0]
  {
    assert xs[0] in xs && ys[0] in ys;
    var i :| 0 <= i < |ys| && ys[i] == xs[0];
    var j :| 0 <= j < |xs| && xs[j] == ys[0];
    if i > 0 && j > 0 {
      assert Less(ys[0].key, ys[i].key) && Less(xs[0].key, xs[j].key);
      LessTransitive(ys[0].key, xs[0].key, ys[0].key);
      LessIrreflexive(ys[0].key);
    }
  }
}
