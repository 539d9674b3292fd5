/**
 * What the two enclaves hash and authenticate when a chaincode reads the state: the ledger enclave over its own
 * entries, the chaincode enclave over the values it was handed (ledger.cpp, tlcc_enclave/enclave/enclave.cpp,
 * shim.cpp).
 */
module Queries {
  import opened Basics
  import opened ByteOrder
  import opened Ledger
  import opened CompositeKeys

  /** A hash function on byte strings. */
  type Hash = string -> string

  const HASH_SIZE := 32

  const ZEROS := seq(HASH_SIZE, i => '\0')

  ghost predicate FixedSize(hash: Hash) {
    forall s :: |hash(s)| == HASH_SIZE
  }

  // ----- removing the chaincode name -----

  /** The key from its first dot on; the whole key when it has no dot. */
  function FromDot(k: Key): Key {
    if '.' in k then TailFrom(k) else k
  }

  /** The key after its first dot; the whole key when it has no dot. */
  function AfterDot(k: Key): Key {
    if '.' in k then TailFrom(k)[1..] else k
  }

  function TailFrom(k: Key): (r: Key)
    requires '.' in k
    ensures r != [] && r[0] == '.' && |r| <= |k|
  {
    if k[0] == '.' then k else TailFrom(k[1..])
  }

  lemma {:induction false} TailOfDotFree(ns: string, p: Key)
    requires '.' !in ns && p != [] && p[0] == '.'
    ensures '.' in ns + p && TailFrom(ns + p) == p
  {
    if ns == [] {
      assert ns + p == p;
    } else {
      assert (ns + p)[1..] == ns[1..] + p;
      TailOfDotFree(ns[1..], p);
    }
  }

  lemma {:induction false} TailOfDotted(ns: string, p: Key)
    requires '.' in ns
    ensures TailFrom(ns + p) == TailFrom(ns) + p
  {
    if ns[0] != '.' {
      assert (ns + p)[1..] == ns[1..] + p;
      TailOfDotted(ns[1..], p);
    }
  }

  lemma {:induction false} TailSkips(ns: string, p: Key)
    requires '.' !in ns && '.' in p
    ensures TailFrom(ns + p) == TailFrom(p)
  {
    if ns == [] {
      assert ns + p == p;
    } else {
      assert (ns + p)[1..] == ns[1..] + p;
      TailSkips(ns[1..], p);
    }
  }

  /** Removing the chaincode name gives the queried prefix back exactly when only the prefix begins with a dot. */
  lemma FromDotExactly(ns: string, p: Key)
    ensures FromDot(ns + p) == p <==>
            ('.' !in ns && p != [] && p[0] == '.') || (ns == [] && '.' !in p)
  {
    if '.' in ns {
      TailOfDotted(ns, p);
      assert |TailFrom(ns) + p| > |p|;
    } else if '.' in p {
      TailSkips(ns, p);
      if p[0] == '.' {
        TailOfDotFree(ns, p);
      }
    } else {
      assert ns == [] ==> ns + p == p;
      assert ns != [] ==> |ns + p| > |p|;
    }
  }

  lemma AfterDotExactly(ns: string, key: Key)
    ensures AfterDot(ns + "." + key) == key <==> '.' !in ns
  {
    assert ns + "." + key == ns + ("." + key);
    if '.' in ns {
      TailOfDotted(ns, "." + key);
    } else {
      TailOfDotFree(ns, "." + key);
    }
  }

  // ----- ledger keys of composite keys -----

  lemma CStringOf(piece: string, rest: string)
    requires '\0' !in piece
    ensures CString(piece + "\0" + rest) == piece
  {
    var s := piece + "\0" + rest;
    var r := CString(s);
    assert s[|piece|] == '\0';
    assert s[..|piece|] == piece;
  }

  /** Walking over the components gives the dotted spelling exactly when no component is empty. */
  lemma {:induction false} DottedComponents(pieces: seq<string>)
    requires forall i :: 0 <= i < |pieces| ==> '\0' !in pieces[i]
    ensures Dotted(Terminated(pieces)) == ToFpc(Terminated(pieces)) <==> [] !in pieces
  {
    if pieces != [] {
      var piece, rest := pieces[0], Terminated(pieces[1..]);
      var s := Terminated(pieces);
      assert pieces == [piece] + pieces[1..];
      DottedComponents(pieces[1..]);
      CStringOf(piece, rest);
      ReplaceAppend(piece + "\0", rest, '\0', '.');
      ReplaceAppend(piece, "\0", '\0', '.');
      ReplaceAbsent(piece, '\0', '.');
      assert Replace("\0", '\0', '.') == ".";
      assert s[|piece| + 1..] == rest;
      if piece != [] {
        var head := piece + ".";
        assert Dotted(s) == head + Dotted(rest) && ToFpc(s) == head + ToFpc(rest);
        assert Dotted(s)[|head|..] == Dotted(rest) && ToFpc(s)[|head|..] == ToFpc(rest);
      }
    }
  }

  /** The ledger stores a composite key under the chaincode name followed by the enclave's spelling of the key. */
  lemma LedgerKeyOfComposite(ns: string, pieces: seq<string>)
    requires forall i :: 0 <= i < |pieces| ==> '\0' !in pieces[i]
    ensures CompositeKey(ns, Rejoin(pieces)) == ns + ToFpc(Rejoin(pieces)) <==> [] !in pieces
  {
    var text := Terminated(pieces);
    assert Rejoin(pieces)[1..] == text;
    DottedComponents(pieces);
    ReplaceAppend("\0", text, '\0', '.');
    assert Replace("\0", '\0', '.') == ".";
    var head := ns + ".";
    assert CompositeKey(ns, Rejoin(pieces)) == head + Dotted(text);
    assert ns + ToFpc(Rejoin(pieces)) == head + ToFpc(text);
    assert (head + Dotted(text))[|head|..] == Dotted(text) && (head + ToFpc(text))[|head|..] == ToFpc(text);
  }

  // ----- prefix queries -----

  function WithPrefix<V>(items: seq<Item<V>>, p: Key): seq<Item<V>> {
    if items == [] then []
    else (if p <= items[0].key then [items[0]] else []) + WithPrefix(items[1..], p)
  }

  /** The bytes that the ledger enclave hashes for these entries. */
  function EntryBytes(items: seq<Item<Entry>>): string {
    if items == [] then [] else FromDot(items[0].key) + items[0].value.value + EntryBytes(items[1..])
  }

  /** The bytes hashed by a scan that starts at a position and stops at the first key without the prefix. */
  function ScanFrom(items: seq<Item<Entry>>, i: nat, p: Key): string
    requires i <= |items|
    decreases |items| - i
  {
    if i == |items| || !(p <= items[i].key) then []
    else FromDot(items[i].key) + items[i].value.value + ScanFrom(items, i + 1, p)
  }

  lemma {:induction false} NonePrefixed<V>(items: seq<Item<V>>, p: Key)
    requires forall i :: 0 <= i < |items| ==> !(p <= items[i].key)
    ensures WithPrefix(items, p) == []
  {
    if items != [] {
      NonePrefixed(items[1..], p);
    }
  }

  lemma {:induction false} WithPrefixAppend<V>(xs: seq<Item<V>>, ys: seq<Item<V>>, p: Key)
    ensures WithPrefix(xs + ys, p) == WithPrefix(xs, p) + WithPrefix(ys, p)
  {
    if xs == [] {
      assert xs + ys == ys;
    } else {
      assert (xs + ys)[1..] == xs[1..] + ys;
      WithPrefixAppend(xs[1..], ys, p);
    }
  }

  predicate IsLowerBound<V>(items: seq<Item<V>>, i: nat, k: Key) {
    && i <= |items|
    && (forall j :: 0 <= j < i ==> Less(items[j].key, k))
    && (forall j :: i <= j < |items| ==> !Less(items[j].key, k))
  }

  /** Once a key lacks the prefix, all later ones do. */
  lemma {:induction false} ScanRest(items: seq<Item<Entry>>, i: nat, p: Key)
    requires Ordered(items) && i <= |items|
    requires forall j :: i <= j < |items| ==> !Less(items[j].key, p)
    ensures ScanFrom(items, i, p) == EntryBytes(WithPrefix(items[i..], p))
    decreases |items| - i
  {
    if i < |items| {
      assert items[i..][1..] == items[i + 1..];
      if p <= items[i].key {
        ScanRest(items, i + 1, p);
        assert WithPrefix(items[i..], p) == [items[i]] + WithPrefix(items[i + 1..], p);
        assert ([items[i]] + WithPrefix(items[i + 1..], p))[1..] == WithPrefix(items[i + 1..], p);
      } else {
        forall j | i <= j < |items| ensures !(p <= items[j].key) {
          if i < j && p <= items[j].key {
            PrefixContiguous(p, items[i].key, items[j].key);
          }
        }
        NonePrefixed(items[i..], p);
      }
    }
  }

  /**
   * The scan from the lower bound to the first key without the prefix visits exactly the keys that have it, in order.
   */
  lemma ScanIsFilter(items: seq<Item<Entry>>, i: nat, p: Key)
    requires Ordered(items) && IsLowerBound(items, i, p)
    ensures ScanFrom(items, i, p) == EntryBytes(WithPrefix(items, p))
  {
    assert items == items[..i] + items[i..];
    WithPrefixAppend(items[..i], items[i..], p);
    forall j | 0 <= j < i ensures !(p <= items[..i][j].key) {
      if p <= items[j].key {
        PrefixNotLess(p, items[j].key);
      }
    }
    NonePrefixed(items[..i], p);
    assert WithPrefix(items, p) == WithPrefix(items[i..], p);
    ScanRest(items, i, p);
  }

  // ----- the chaincode enclave -----

  /** The bytes that the chaincode enclave hashes for the values of a range read. */
  function ValueBytes(values: seq<Item<string>>): string {
    if values == [] then [] else values[0].key + values[0].value + ValueBytes(values[1..])
  }

  /** The loop over the values of a range read. */
  method HashValues(values: seq<Item<string>>, hash: Hash) returns (digest: string)
    ensures digest == hash(ValueBytes(values))
  {
    var bytes: string := [];
    for i := 0 to |values|
      invariant bytes + ValueBytes(values[i..]) == ValueBytes(values)
    {
      ghost var before, rest := bytes, ValueBytes(values[i + 1..]);
      assert values[i..][1..] == values[i + 1..];
      assert ValueBytes(values[i..]) == values[i].key + values[i].value + rest;
      bytes := bytes + values[i].key;
      bytes := bytes + values[i].value;
      assert bytes + rest == before + (values[i].key + values[i].value + rest);
    }
    assert values[|values|..] == [];
    assert bytes + [] == bytes;
    digest := hash(bytes);
  }

  /** The values under a chaincode's keys with a prefix, by the names that the chaincode uses, in an ordered map. */
  ghost predicate IsAnswer(values: seq<Item<string>>, store: Store, ns: string, p: Key) {
    && Ordered(values)
    && (forall i :: 0 <= i < |values| ==>
          && p <= values[i].key
          && ns + values[i].key in store && store[ns + values[i].key].value == values[i].value)
    && (forall k :: ns + k in store && p <= k ==> HasKey(values, k))
  }

  lemma {:induction false} Kept<V>(items: seq<Item<V>>, p: Key, x: Item<V>)
    ensures x in WithPrefix(items, p) <==> x in items && p <= x.key
  {
    if items != [] {
      assert items == [items[0]] + items[1..];
      Kept(items[1..], p, x);
    }
  }

  lemma {:induction false} KeptOrdered<V>(items: seq<Item<V>>, p: Key)
    requires Ordered(items)
    ensures Ordered(WithPrefix(items, p))
  {
    if items != [] {
      var x, rest := items[0], items[1..];
      KeptOrdered(rest, p);
      var kept := WithPrefix(rest, p);
      forall y | y in kept ensures Less(x.key, y.key) {
        Kept(rest, p, y);
        var i :| 0 <= i < |rest| && rest[i] == y;
        assert items[i + 1] == y;
      }
      if p <= x.key {
        ConsOrdered(x, kept);
      }
    }
  }

  /** The same entries under their ledger keys. */
  function Named(values: seq<Item<string>>, ns: string): seq<Item<string>> {
    seq(|values|, i requires 0 <= i < |values| => Item(ns + values[i].key, values[i].value))
  }

  function Bare(items: seq<Item<Entry>>): seq<Item<string>> {
    seq(|items|, i requires 0 <= i < |items| => Item(items[i].key, items[i].value.value))
  }

  /** With the chaincode name removed, entries and values give the same bytes. */
  lemma {:induction false} SameBytes(items: seq<Item<Entry>>, values: seq<Item<string>>, ns: string)
    requires '.' !in ns && Named(values, ns) == Bare(items)
    requires forall i :: 0 <= i < |values| ==> values[i].key != [] && values[i].key[0] == '.'
    ensures EntryBytes(items) == ValueBytes(values)
    decreases |items|
  {
    assert |values| == |Named(values, ns)| == |Bare(items)| == |items|;
    if items != [] {
      hide FromDot, TailFrom;
      FromDotExactly(ns, values[0].key);
      assert Named(values, ns)[0] == Bare(items)[0];
      assert Named(values[1..], ns) == Named(values, ns)[1..] == Bare(items)[1..] == Bare(items[1..]);
      hide Named, Bare;
      SameBytes(items[1..], values[1..], ns);
    }
  }

  lemma NamedOrdered(values: seq<Item<string>>, ns: string)
    requires Ordered(values)
    ensures Ordered(Named(values, ns))
  {
    var xs := Named(values, ns);
    forall i, j | 0 <= i < j < |xs| ensures Less(xs[i].key, xs[j].key) {
      LessAfterPrefix(ns, values[i].key, values[j].key);
    }
  }

  lemma PrefixedName(ns: string, p: Key, k: Key)
    ensures ns + p <= ns + k <==> p <= k
  {
    assert (ns + k)[|ns|..] == k;
    if ns + p <= ns + k {
      assert p == (ns + p)[|ns|..] <= (ns + k)[|ns|..];
    }
  }

  lemma NamedIsScanned(items: seq<Item<Entry>>, store: Store, values: seq<Item<string>>, ns: string, p: Key,
                       x: Item<string>)
    requires Represents(items, store) && IsAnswer(values, store, ns, p)
    requires x in Named(values, ns)
    ensures x in Bare(WithPrefix(items, ns + p))
  {
    hide Ordered, WithPrefix;
    var i :| 0 <= i < |values| && Named(values, ns)[i] == x;
    PrefixedName(ns, p, values[i].key);
    assert HasKey(items, x.key);
    var m :| 0 <= m < |items| && items[m].key == x.key;
    var scanned := WithPrefix(items, ns + p);
    Kept(items, ns + p, items[m]);
    var n :| 0 <= n < |scanned| && scanned[n] == items[m];
    assert Bare(scanned)[n] == x;
  }

  lemma ScannedIsNamed(items: seq<Item<Entry>>, store: Store, values: seq<Item<string>>, ns: string, p: Key,
                       x: Item<string>)
    requires Represents(items, store) && IsAnswer(values, store, ns, p)
    requires x in Bare(WithPrefix(items, ns + p))
    ensures x in Named(values, ns)
  {
    hide Ordered, WithPrefix;
    var scanned := WithPrefix(items, ns + p);
    var n :| 0 <= n < |scanned| && Bare(scanned)[n] == x;
    Kept(items, ns + p, scanned[n]);
    var k := x.key[|ns|..];
    assert x.key == ns + k;
    PrefixedName(ns, p, k);
    assert HasKey(values, k);
    var i :| 0 <= i < |values| && values[i].key == k;
    assert Named(values, ns)[i] == x;
  }

  /** The values handed to the chaincode are the entries that the ledger scans, in the same order. */
  lemma SameEntries(items: seq<Item<Entry>>, store: Store, values: seq<Item<string>>, ns: string, p: Key)
    requires Represents(items, store) && IsAnswer(values, store, ns, p)
    ensures Named(values, ns) == Bare(WithPrefix(items, ns + p))
  {
    KeptOrdered(items, ns + p);
    NamedOrdered(values, ns);
    var xs, ys := Named(values, ns), Bare(WithPrefix(items, ns + p));
    assert Ordered(ys);
    hide Ordered, WithPrefix, Named, Bare;
    forall x ensures x in xs <==> x in ys {
      if x in xs {
        NamedIsScanned(items, store, values, ns, p, x);
      }
      if x in ys {
        ScannedIsNamed(items, store, values, ns, p, x);
      }
    }
    OrderedUnique(xs, ys);
  }

  /** What is authenticated: the queried key followed by the digest of the answer. */
  function LedgerRangeMac(items: seq<Item<Entry>>, ns: string, p: Key, hash: Hash): string {
    FromDot(ns + p) + hash(EntryBytes(WithPrefix(items, ns + p)))
  }

  function ChaincodeRangeMac(values: seq<Item<string>>, p: Key, hash: Hash): string {
    p + hash(ValueBytes(values))
  }

  /**
   * For a query that begins with a dot, over the same entries: both enclaves authenticate the same bytes exactly when
   * the chaincode name has no dot.
   */
  lemma RangeMacsAgreeExactly(items: seq<Item<Entry>>, store: Store, values: seq<Item<string>>, ns: string, p: Key,
                              hash: Hash)
    requires Represents(items, store) && IsAnswer(values, store, ns, p)
    requires p != [] && p[0] == '.' && FixedSize(hash)
    ensures LedgerRangeMac(items, ns, p, hash) == ChaincodeRangeMac(values, p, hash) <==> '.' !in ns
  {
    hide Represents;
    FromDotExactly(ns, p);
    if '.' in ns {
      TailOfDotted(ns, p);
    } else {
      SameEntries(items, store, values, ns, p);
      SameBytes(WithPrefix(items, ns + p), values, ns);
    }
  }

  // ----- point queries -----

  /** The key under which the peer asks the ledger enclave: composite keys begin with a NUL, which ends a C string. */
  function PointKey(ns: string, key: Key): Key {
    ns + "." + if IsFpcCompositeKey(key) then [] else key
  }

  function LedgerPointMac(store: Store, ns: string, key: Key, hash: Hash): string {
    var k := PointKey(ns, key);
    AfterDot(k) + if k in store then hash(store[k].value) else ZEROS
  }

  /** The chaincode enclave hashes what it was handed, also when that is nothing. */
  function ChaincodePointMac(value: string, key: Key, hash: Hash): string {
    key + hash(value)
  }

  lemma SplitMac(x: string, d: string, y: string, e: string)
    requires |d| == |e| && x + d == y + e
    ensures x == y && d == e
  {
    assert |x| == |y|;
    assert x == (x + d)[..|x|] == (y + e)[..|y|] == y;
    assert d == (x + d)[|x|..] == (y + e)[|y|..] == e;
  }

  /**
   * For the value that the ledger holds, or nothing when it holds none, and a key that is not composite: both enclaves
   * authenticate the same bytes exactly when the chaincode name has no dot and the key is present. (An absent key would
   * need a hash that maps the empty string to zeros.)
   */
  lemma PointMacsAgreeExactly(store: Store, ns: string, key: Key, hash: Hash)
    requires FixedSize(hash) && !IsFpcCompositeKey(key)
    ensures var k := ns + "." + key;
            var value := if k in store then store[k].value else [];
            LedgerPointMac(store, ns, key, hash) == ChaincodePointMac(value, key, hash) <==>
            '.' !in ns && (k in store || hash([]) == ZEROS)
  {
    var k := ns + "." + key;
    var value := if k in store then store[k].value else [];
    AfterDotExactly(ns, key);
    var digest := if k in store then hash(store[k].value) else ZEROS;
    if AfterDot(k) + digest == key + hash(value) {
      SplitMac(AfterDot(k), digest, key, hash(value));
    }
  }

  /**
   * For a composite key, whatever value the chaincode was handed, the ledger enclave is asked for the bare key of the
   * chaincode. The bytes agree exactly when the key is what follows the first dot of the chaincode's name and a dot,
   * and the digests of that entry and of the value agree; so never when the name has no dot.
   */
  lemma CompositePointMacs(store: Store, ns: string, key: Key, value: string, hash: Hash)
    requires FixedSize(hash) && IsFpcCompositeKey(key)
    ensures var asked := ns + ".";
            var agree := LedgerPointMac(store, ns, key, hash) == ChaincodePointMac(value, key, hash);
            && (agree <==>
                  key == AfterDot(asked) && hash(value) == if asked in store then hash(store[asked].value) else ZEROS)
            && ('.' !in ns ==> !agree)
  {
    var asked := ns + ".";
    AfterDotExactly(ns, []);
    assert asked + [] == asked && PointKey(ns, key) == asked;
    var digest := if asked in store then hash(store[asked].value) else ZEROS;
    if AfterDot(asked) + digest == key + hash(value) {
      SplitMac(AfterDot(asked), digest, key, hash(value));
    }
  }
}
