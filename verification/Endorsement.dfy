/**
 * The bytes that a chaincode enclave signs, and the bytes that a validating peer rebuilds from the transaction
 * (ecc_enclave/enclave/enclave.cpp, plugins/ecc-vscc/ecc_validation_logic.go, ecc/crypto/ecdsa.go).
 */
module Endorsement {
  import opened Basics
  import opened ByteOrder
  import opened CompositeKeys
  import opened Queries

  /**
   * What a chaincode does to the state. A scan comes with the peer's keys that it found; the peer lists them in the
   * transaction, or only a digest of them.
   */
  datatype Op = Get(key: Key) | Put(key: Key, value: string) | Scan(found: seq<Key>, listed: bool)

  /** Keys are C strings, and none of them is the single dot; the keys that a scan finds are not empty. */
  predicate Completes(ops: seq<Op>) {
    forall i :: 0 <= i < |ops| ==>
      if ops[i].Scan? then [] !in ops[i].found else '\0' !in ops[i].key && ops[i].key != "."
  }

  // ----- what the enclave records -----

  function EnclaveReads(ops: seq<Op>): set<Key> {
    if ops == [] then {}
    else
      EnclaveReads(ops[..|ops| - 1]) +
      match ops[|ops| - 1]
      case Get(k) => {k}
      case Put(_, _) => {}
      case Scan(found, _) => set i | 0 <= i < |found| :: ToFpc(found[i])
  }

  /** The first value of a key stays. */
  function EnclaveWrites(ops: seq<Op>): map<Key, string> {
    if ops == [] then map[]
    else
      var before, op := EnclaveWrites(ops[..|ops| - 1]), ops[|ops| - 1];
      if op.Put? && op.key !in before then before[op.key := op.value] else before
  }

  // ----- what the peer records -----

  function Fabric(key: Key): Key {
    if ToFabric(key).Some? then ToFabric(key).value else key
  }

  function PeerReads(ops: seq<Op>): set<Key> {
    if ops == [] then {}
    else
      PeerReads(ops[..|ops| - 1]) + if ops[|ops| - 1].Get? then {Fabric(ops[|ops| - 1].key)} else {}
  }

  /** The range queries of a transaction: with the keys they found, or without. */
  function PeerRanges(ops: seq<Op>): seq<Option<seq<Key>>> {
    if ops == [] then []
    else
      var op := ops[|ops| - 1];
      PeerRanges(ops[..|ops| - 1]) + if op.Scan? then [if op.listed then Some(op.found) else None] else []
  }

  /** The keys of all listed range queries. */
  function RawReads(ranges: seq<Option<seq<Key>>>): seq<Key> {
    if ranges == [] then []
    else
      var n := |ranges| - 1;
      RawReads(ranges[..n]) + if ranges[n].Some? then ranges[n].value else []
  }

  /** A key that only range queries without a list have found. */
  predicate Unlisted(ops: seq<Op>, k: Key) {
    exists i :: 0 <= i < |ops| && ops[i].Scan? && !ops[i].listed && k in Transformed(ops[i].found)
  }

  /** The last value of a key stays. */
  function PeerWrites(ops: seq<Op>): map<Key, string> {
    if ops == [] then map[]
    else
      var before, op := PeerWrites(ops[..|ops| - 1]), ops[|ops| - 1];
      if op.Put? then before[Fabric(op.key) := op.value] else before
  }

  /** The read and write sets of a chaincode in a transaction: every key once, in some order, and the range queries. */
  datatype RwSet = RwSet(points: seq<Key>, ranges: seq<Option<seq<Key>>>, writes: seq<Item<string>>)

  function KeysOf(items: seq<Item<string>>): seq<Key> {
    seq(|items|, i requires 0 <= i < |items| => items[i].key)
  }

  ghost predicate IsRwSet(rw: RwSet, ops: seq<Op>) {
    && Distinct(rw.points) && (forall k :: k in rw.points <==> k in PeerReads(ops))
    && rw.ranges == PeerRanges(ops)
    && Distinct(KeysOf(rw.writes))
    && (forall i :: 0 <= i < |rw.writes| ==>
          rw.writes[i].key in PeerWrites(ops) && PeerWrites(ops)[rw.writes[i].key] == rw.writes[i].value)
    && (forall k :: k in PeerWrites(ops) ==> HasKey(rw.writes, k))
  }

  // ----- bytes -----

  function Concat(keys: seq<Key>): string {
    if keys == [] then [] else keys[0] + Concat(keys[1..])
  }

  predicate StrictlyAscending(keys: seq<Key>) {
    forall i, j :: 0 <= i < j < |keys| ==> Less(keys[i], keys[j])
  }

  predicate SortedKeys(keys: seq<Key>) {
    forall i, j :: 0 <= i < j < |keys| ==> !Less(keys[j], keys[i])
  }

  function EnclaveBytes(header: string, readKeys: seq<Key>, writes: seq<Item<string>>): string {
    header + Concat(readKeys) + ValueBytes(writes)
  }

  function ReadKeys(rw: RwSet): seq<Key> {
    Transformed(rw.points + RawReads(rw.ranges))
  }

  function Transformed(keys: seq<Key>): (r: seq<Key>) {
    seq(|keys|, i requires 0 <= i < |keys| => ToFpc(keys[i]))
  }

  /** The writes by transformed key; later ones replace earlier ones. */
  function WriteMap(writes: seq<Item<string>>): map<Key, string> {
    if writes == [] then map[]
    else
      var n := |writes| - 1;
      WriteMap(writes[..n])[ToFpc(writes[n].key) := writes[n].value]
  }

  lemma {:induction false} WriteMapKeys(writes: seq<Item<string>>, k: Key)
    ensures k in WriteMap(writes) <==> k in Transformed(KeysOf(writes))
  {
    if writes != [] {
      var n := |writes| - 1;
      WriteMapKeys(writes[..n], k);
      var ks := Transformed(KeysOf(writes));
      assert ks == Transformed(KeysOf(writes[..n])) + [ToFpc(writes[n].key)];
    }
  }

  /** Insert before the first key that is greater. */
  function InsertKey(sorted: seq<Key>, k: Key): seq<Key> {
    if sorted == [] || Less(k, sorted[0]) then [k] + sorted else [sorted[0]] + InsertKey(sorted[1..], k)
  }

  function Sort(keys: seq<Key>): seq<Key> {
    if keys == [] then [] else InsertKey(Sort(keys[..|keys| - 1]), keys[|keys| - 1])
  }

  function WithValues(keys: seq<Key>, m: map<Key, string>): seq<Item<string>>
    requires forall k :: k in keys ==> k in m
  {
    seq(|keys|, i requires 0 <= i < |keys| => Item(keys[i], m[keys[i]]))
  }

  // ----- sorting -----

  lemma {:induction false} InsertKeyKeeps(sorted: seq<Key>, k: Key)
    ensures multiset(InsertKey(sorted, k)) == multiset(sorted) + multiset{k}
  {
    hide Less;
    if sorted != [] && !Less(k, sorted[0]) {
      InsertKeyKeeps(sorted[1..], k);
      assert sorted == [sorted[0]] + sorted[1..];
    }
  }

  lemma SortedTail(sorted: seq<Key>)
    requires SortedKeys(sorted) && sorted != []
    ensures SortedKeys(sorted[1..]) && forall y :: y in sorted[1..] ==> !Less(y, sorted[0])
  {
    hide Less;
    var rest := sorted[1..];
    assert forall i :: 0 <= i < |rest| ==> rest[i] == sorted[i + 1];
  }

  lemma {:induction false} InsertKeySorts(sorted: seq<Key>, k: Key)
    requires SortedKeys(sorted)
    ensures SortedKeys(InsertKey(sorted, k))
    ensures multiset(InsertKey(sorted, k)) == multiset(sorted) + multiset{k}
  {
    InsertKeyKeeps(sorted, k);
    if sorted == [] {
      assert SortedKeys([k]);
    } else if Less(k, sorted[0]) {
      SortedCons(k, sorted);
    } else {
      var x, rest := sorted[0], sorted[1..];
      SortedTail(sorted);
      InsertKeySorts(rest, k);
      var more := InsertKey(rest, k);
      hide Less, SortedKeys;
      forall y | y in more ensures !Less(y, x) {
        assert y in multiset(more);
        assert y == k || y in multiset(rest);
      }
      AtLeastCons(x, more);
    }
  }

  lemma AtLeastCons(x: Key, rest: seq<Key>)
    requires SortedKeys(rest) && forall y :: y in rest ==> !Less(y, x)
    ensures SortedKeys([x] + rest)
  {
    var s := [x] + rest;
    forall i, j | 0 <= i < j < |s| ensures !Less(s[j], s[i]) {
      assert s[j] == rest[j - 1];
      assert rest[j - 1] in rest;
      if i > 0 {
        assert s[i] == rest[i - 1];
      }
    }
  }

  lemma SortedCons(k: Key, sorted: seq<Key>)
    requires SortedKeys(sorted) && sorted != [] && Less(k, sorted[0])
    ensures SortedKeys([k] + sorted)
  {
    forall y | y in sorted ensures !Less(y, k) {
      var i :| 0 <= i < |sorted| && sorted[i] == y;
      if Less(y, k) {
        LessTransitive(y, k, sorted[0]);
        LessIrreflexive(y);
      }
    }
    AtLeastCons(k, sorted);
  }

  /** Sorted keys stand in the order of dictionaries, equal ones side by side. */
  lemma SortedExactly(keys: seq<Key>)
    ensures SortedKeys(keys) <==>
            forall i, j :: 0 <= i < j < |keys| ==> keys[i] == keys[j] || ComesBefore(keys[i], keys[j])
  {
    hide Less, ComesBefore;
    forall i, j | 0 <= i < j < |keys|
      ensures !Less(keys[j], keys[i]) <==> keys[i] == keys[j] || ComesBefore(keys[i], keys[j])
    {
      LessExactly(keys[i], keys[j]);
      LessTotal(keys[i], keys[j]);
      LessIrreflexive(keys[i]);
      if Less(keys[i], keys[j]) && Less(keys[j], keys[i]) {
        LessTransitive(keys[i], keys[j], keys[i]);
      }
    }
  }

  lemma SortSorts(keys: seq<Key>)
    ensures SortedKeys(Sort(keys)) && multiset(Sort(keys)) == multiset(keys)
    ensures forall i, j :: 0 <= i < j < |Sort(keys)| ==>
              Sort(keys)[i] == Sort(keys)[j] || ComesBefore(Sort(keys)[i], Sort(keys)[j])
  {
    SortSortsKeys(keys);
    SortedExactly(Sort(keys));
  }

  lemma {:induction false} SortSortsKeys(keys: seq<Key>)
    ensures SortedKeys(Sort(keys)) && multiset(Sort(keys)) == multiset(keys)
  {
    if keys != [] {
      var n := |keys| - 1;
      SortSortsKeys(keys[..n]);
      InsertKeySorts(Sort(keys[..n]), keys[n]);
      assert keys == keys[..n] + [keys[n]];
    }
  }

  // ----- repeated keys -----

  /** Drop a key that equals its neighbour. */
  function Squeeze(sorted: seq<Key>): (r: seq<Key>)
    ensures forall k :: k in r <==> k in sorted
    ensures sorted != [] ==> r != [] && r[0] == sorted[0]
  {
    if |sorted| <= 1 then sorted
    else if sorted[0] == sorted[1] then
      assert sorted == [sorted[0]] + sorted[1..];
      Squeeze(sorted[1..])
    else
      assert sorted == [sorted[0]] + sorted[1..];
      [sorted[0]] + Squeeze(sorted[1..])
  }

  lemma {:induction false} SqueezeAscends(sorted: seq<Key>)
    requires SortedKeys(sorted)
    ensures StrictlyAscending(Squeeze(sorted))
  {
    if |sorted| > 1 {
      var rest := sorted[1..];
      assert forall i :: 0 <= i < |rest| ==> rest[i] == sorted[i + 1];
      SqueezeAscends(rest);
      if sorted[0] != sorted[1] {
        var tail := Squeeze(rest);
        LessTotal(sorted[0], sorted[1]);
        assert Less(sorted[0], tail[0]);
        var r := [sorted[0]] + tail;
        forall i, j | 0 <= i < j < |r| ensures Less(r[i], r[j]) {
          if i == 0 && j > 1 {
            LessTransitive(r[0], tail[0], tail[j - 1]);
          }
        }
      }
    }
  }

  /** Some key that is not empty occurs more than once. */
  ghost predicate Repeated(keys: seq<Key>) {
    exists k :: k != [] && multiset(keys)[k] > 1
  }

  lemma RepeatedCons(x: Key, rest: seq<Key>)
    requires SortedKeys([x] + rest)
    ensures Repeated([x] + rest) <==> Repeated(rest) || (x != [] && rest != [] && rest[0] == x)
  {
    var s := [x] + rest;
    if Repeated(s) {
      var k :| k != [] && multiset(s)[k] > 1;
      if k == x {
        assert k in multiset(rest);
        var i :| 0 <= i < |rest| && rest[i] == k;
        assert s[i + 1] == k && s[1] == rest[0] && s[0] == x;
        LessTotal(rest[0], x);
        assert i > 0 ==> !Less(s[i + 1], s[1]);
      } else {
        assert multiset(rest)[k] > 1;
      }
    }
    if Repeated(rest) {
      var k :| k != [] && multiset(rest)[k] > 1;
      assert multiset(s)[k] > 1;
    }
    if x != [] && rest != [] && rest[0] == x {
      assert x in rest;
      assert multiset(s)[x] > 1;
    }
  }

  /** Dropping repetitions leaves the bytes as they are exactly when nothing but the empty key is repeated. */
  lemma {:induction false} SqueezeBytes(sorted: seq<Key>)
    requires SortedKeys(sorted)
    ensures |Concat(Squeeze(sorted))| <= |Concat(sorted)|
    ensures Concat(Squeeze(sorted)) == Concat(sorted) <==> !Repeated(sorted)
  {
    if |sorted| <= 1 {
      assert Repeated(sorted) ==> exists k :: multiset(sorted)[k] > 1;
      assert sorted != [] ==> sorted == [sorted[0]];
    } else {
      var x, rest := sorted[0], sorted[1..];
      assert sorted == [x] + rest;
      assert forall i :: 0 <= i < |rest| ==> rest[i] == sorted[i + 1];
      RepeatedCons(x, rest);
      SqueezeBytes(rest);
      hide Repeated;
      if x == rest[0] {
        assert x == [] ==> x + Concat(rest) == Concat(rest);
      } else {
        var tail := Squeeze(rest);
        assert ([x] + tail)[1..] == tail;
        assert (x + Concat(tail))[|x|..] == Concat(tail) && (x + Concat(rest))[|x|..] == Concat(rest);
      }
    }
  }

  // ----- the reads -----

  lemma NextRange(ops: seq<Op>, op: Op)
    ensures RawReads(PeerRanges(ops + [op])) ==
            RawReads(PeerRanges(ops)) + if op.Scan? && op.listed then op.found else []
    ensures forall k :: Unlisted(ops + [op], k) <==>
              Unlisted(ops, k) || (op.Scan? && !op.listed && k in Transformed(op.found))
  {
    var more := ops + [op];
    assert more[..|ops|] == ops;
    var ranges := PeerRanges(more);
    if op.Scan? {
      assert ranges[..|ranges| - 1] == PeerRanges(ops);
    } else {
      assert ranges == PeerRanges(ops);
    }
    hide Transformed;
    forall k ensures Unlisted(more, k) <==> Unlisted(ops, k) || (op.Scan? && !op.listed && k in Transformed(op.found)) {
      if i :| 0 <= i < |ops| && ops[i].Scan? && !ops[i].listed && k in Transformed(ops[i].found) {
        assert more[i] == ops[i];
      }
      if i :| 0 <= i < |more| && more[i].Scan? && !more[i].listed && k in Transformed(more[i].found) {
        assert i < |ops| ==> more[i] == ops[i];
      }
      assert more[|ops|] == op;
    }
  }

  ghost predicate ReadDirectly(ops: seq<Op>, k: Key) {
    exists f :: f in PeerReads(ops) && ToFpc(f) == k
  }

  lemma NextDirect(ops: seq<Op>, op: Op, k: Key)
    requires Completes([op])
    ensures ReadDirectly(ops + [op], k) <==> ReadDirectly(ops, k) || (op.Get? && op.key == k)
  {
    var more := ops + [op];
    assert more[..|ops|] == ops;
    if op.Get? {
      assert [op][0] == op;
      KeyRoundTrip(op.key);
      hide ToFpc, ToFabric;
      assert PeerReads(more) == PeerReads(ops) + {Fabric(op.key)};
      assert op.key == k ==> Fabric(op.key) in PeerReads(more) && ToFpc(Fabric(op.key)) == k;
      if f :| f in PeerReads(ops) && ToFpc(f) == k {
        assert f in PeerReads(more);
      }
    } else {
      assert PeerReads(more) == PeerReads(ops);
    }
  }

  /**
   * The enclave has read what the transaction shows as read directly or by a listed scan, and what it does not list.
   */
  lemma {:induction false} ReadsMatch(ops: seq<Op>, k: Key)
    requires Completes(ops)
    ensures k in EnclaveReads(ops) <==>
            ReadDirectly(ops, k) || k in Transformed(RawReads(PeerRanges(ops))) || Unlisted(ops, k)
  {
    if ops != [] {
      var n := |ops| - 1;
      var before, op := ops[..n], ops[n];
      assert ops == before + [op];
      ReadsMatch(before, k);
      NextRange(before, op);
      NextDirect(before, op, k);
      RecordedNext(before, op);
      hide ReadDirectly, Unlisted, PeerRanges, EnclaveReads, EnclaveWrites, ToFpc;
      TransformedAppend(RawReads(PeerRanges(before)), if op.Scan? && op.listed then op.found else []);
    }
  }

  lemma TransformedAppend(xs: seq<Key>, ys: seq<Key>)
    ensures Transformed(xs + ys) == Transformed(xs) + Transformed(ys)
  {
  }

  lemma ReadKeysMatch(ops: seq<Op>, rw: RwSet, k: Key)
    requires Completes(ops) && IsRwSet(rw, ops)
    ensures k in EnclaveReads(ops) <==> k in ReadKeys(rw) || Unlisted(ops, k)
  {
    hide EnclaveReads, PeerReads, PeerRanges, PeerWrites, ToFpc, Unlisted, RawReads;
    ReadsMatch(ops, k);
    TransformedAppend(rw.points, RawReads(rw.ranges));
    if k in Transformed(rw.points) {
      var i :| 0 <= i < |rw.points| && Transformed(rw.points)[i] == k;
      assert rw.points[i] in PeerReads(ops) && ToFpc(rw.points[i]) == k;
    }
    if f :| f in PeerReads(ops) && ToFpc(f) == k {
      var i :| 0 <= i < |rw.points| && rw.points[i] == f;
      assert Transformed(rw.points)[i] == k;
    }
  }

  function AsItems(keys: seq<Key>): seq<Item<bool>> {
    seq(|keys|, i requires 0 <= i < |keys| => Item(keys[i], true))
  }

  lemma StrictlyAscendingUnique(xs: seq<Key>, ys: seq<Key>)
    requires StrictlyAscending(xs) && StrictlyAscending(ys) && forall k :: k in xs <==> k in ys
    ensures xs == ys
  {
    var a, b := AsItems(xs), AsItems(ys);
    forall x ensures x in a <==> x in b {
      if x in a {
        var i :| 0 <= i < |a| && a[i] == x;
        assert xs[i] in ys;
        var j :| 0 <= j < |ys| && ys[j] == xs[i];
        assert b[j] == x;
      }
      if x in b {
        var i :| 0 <= i < |b| && b[i] == x;
        assert ys[i] in xs;
        var j :| 0 <= j < |xs| && xs[j] == ys[i];
        assert a[j] == x;
      }
    }
    OrderedUnique(a, b);
    assert |a| == |b|;
    forall i | 0 <= i < |xs| ensures xs[i] == ys[i] {
      assert a[i] == b[i];
    }
  }

  /** Every key that a scan has found is shown in the transaction. */
  ghost predicate AllListed(ops: seq<Op>, rw: RwSet) {
    forall k :: Unlisted(ops, k) ==> k in ReadKeys(rw)
  }

  /** When all keys are shown, the enclave's ordered set is the validator's sorted list without repetitions. */
  lemma ReadListsMatch(ops: seq<Op>, rw: RwSet, readKeys: seq<Key>)
    requires Completes(ops) && IsRwSet(rw, ops) && AllListed(ops, rw)
    requires StrictlyAscending(readKeys) && forall k :: k in readKeys <==> k in EnclaveReads(ops)
    ensures readKeys == Squeeze(Sort(ReadKeys(rw)))
  {
    hide EnclaveReads, IsRwSet, ReadKeys, Sort, Unlisted;
    var sorted := Sort(ReadKeys(rw));
    SortSorts(ReadKeys(rw));
    SqueezeAscends(sorted);
    forall k ensures k in Squeeze(sorted) <==> k in readKeys {
      ReadKeysMatch(ops, rw, k);
      assert k in sorted <==> k in multiset(sorted);
      assert k in ReadKeys(rw) <==> k in multiset(ReadKeys(rw));
    }
    StrictlyAscendingUnique(readKeys, Squeeze(sorted));
  }

  // ----- the writes -----

  /** No key is written twice. */
  predicate WritesOnce(ops: seq<Op>) {
    forall i, j :: 0 <= i < j < |ops| && ops[i].Put? && ops[j].Put? ==> ops[i].key != ops[j].key
  }

  /** The last value of each key, by the enclave's spelling. */
  function LastWrites(ops: seq<Op>): map<Key, string> {
    if ops == [] then map[]
    else
      var before, op := LastWrites(ops[..|ops| - 1]), ops[|ops| - 1];
      if op.Put? then before[op.key := op.value] else before
  }

  lemma {:induction false} WrittenKeys(ops: seq<Op>, k: Key)
    ensures k in EnclaveWrites(ops) <==> k in LastWrites(ops)
    ensures k in EnclaveWrites(ops) <==> exists i :: 0 <= i < |ops| && ops[i].Put? && ops[i].key == k
  {
    if ops != [] {
      var n := |ops| - 1;
      WrittenKeys(ops[..n], k);
      if i :| 0 <= i < n && ops[i].Put? && ops[i].key == k {
        assert ops[..n][i] == ops[i];
      }
    }
  }

  predicate IsFirstPut(ops: seq<Op>, i: nat) {
    i < |ops| && ops[i].Put? && forall j :: 0 <= j < i && ops[j].Put? ==> ops[j].key != ops[i].key
  }

  predicate IsLastPut(ops: seq<Op>, i: nat) {
    i < |ops| && ops[i].Put? && forall j :: i < j < |ops| && ops[j].Put? ==> ops[j].key != ops[i].key
  }

  /** The first and the last value written to a key are the same. */
  ghost predicate FirstsAreLasts(ops: seq<Op>) {
    forall i: nat, j: nat :: IsFirstPut(ops, i) && IsLastPut(ops, j) && ops[i].key == ops[j].key ==>
      ops[i].value == ops[j].value
  }

  lemma {:induction false} FirstPutDecides(ops: seq<Op>, i: nat)
    requires IsFirstPut(ops, i)
    ensures ops[i].key in EnclaveWrites(ops) && EnclaveWrites(ops)[ops[i].key] == ops[i].value
  {
    var n := |ops| - 1;
    if i < n {
      FirstPutDecides(ops[..n], i);
    } else if ops[i].key in EnclaveWrites(ops[..n]) {
      WrittenKeys(ops[..n], ops[i].key);
      assert false;
    }
  }

  lemma {:induction false} LastPutDecides(ops: seq<Op>, i: nat)
    requires IsLastPut(ops, i)
    ensures ops[i].key in LastWrites(ops) && LastWrites(ops)[ops[i].key] == ops[i].value
  {
    var n := |ops| - 1;
    if i < n {
      LastPutDecides(ops[..n], i);
    }
  }

  lemma FirstPut(ops: seq<Op>, k: Key) returns (i: nat)
    requires exists j :: 0 <= j < |ops| && ops[j].Put? && ops[j].key == k
    ensures IsFirstPut(ops, i) && ops[i].key == k
  {
    i := 0;
    while !(ops[i].Put? && ops[i].key == k)
      invariant i < |ops| && forall j :: 0 <= j < i && ops[j].Put? ==> ops[j].key != k
      decreases |ops| - i
    {
      var m :| 0 <= m < |ops| && ops[m].Put? && ops[m].key == k;
      i := i + 1;
    }
  }

  lemma LastPut(ops: seq<Op>, k: Key) returns (i: nat)
    requires exists j :: 0 <= j < |ops| && ops[j].Put? && ops[j].key == k
    ensures IsLastPut(ops, i) && ops[i].key == k
  {
    i := |ops| - 1;
    while !(ops[i].Put? && ops[i].key == k)
      invariant i < |ops| && forall j :: i < j < |ops| && ops[j].Put? ==> ops[j].key != k
      decreases i
    {
      var m :| 0 <= m < |ops| && ops[m].Put? && ops[m].key == k;
      i := i - 1;
    }
  }

  /** The enclave and the peer record the same writes exactly when the first and last value of every key are equal. */
  lemma WritesAgreeExactly(ops: seq<Op>)
    ensures EnclaveWrites(ops) == LastWrites(ops) <==> FirstsAreLasts(ops)
  {
    hide EnclaveWrites, LastWrites;
    forall i: nat, j: nat | IsFirstPut(ops, i) && IsLastPut(ops, j) && ops[i].key == ops[j].key
      ensures EnclaveWrites(ops) == LastWrites(ops) ==> ops[i].value == ops[j].value
    {
      FirstPutDecides(ops, i);
      LastPutDecides(ops, j);
    }
    if FirstsAreLasts(ops) {
      forall k
        ensures k in EnclaveWrites(ops) <==> k in LastWrites(ops)
        ensures k in EnclaveWrites(ops) ==> EnclaveWrites(ops)[k] == LastWrites(ops)[k]
      {
        WrittenKeys(ops, k);
        if k in EnclaveWrites(ops) {
          var i := FirstPut(ops, k);
          var j := LastPut(ops, k);
          FirstPutDecides(ops, i);
          LastPutDecides(ops, j);
        }
      }
    }
  }

  /** A key written twice with different values: the enclave keeps the first one, the peer the last one. */
  lemma RewrittenKeyDiffers()
    ensures var ops := [Put("k", "1"), Put("k", "2")];
            EnclaveWrites(ops) == map["k" := "1"] && LastWrites(ops) == map["k" := "2"] && !FirstsAreLasts(ops)
  {
    var ops := [Put("k", "1"), Put("k", "2")];
    assert ops[..1] == [Put("k", "1")] && ops[..1][..0] == [];
    assert EnclaveWrites(ops[..1]) == map["k" := "1"] && LastWrites(ops[..1]) == map["k" := "1"];
    assert EnclaveWrites(ops)["k"] != LastWrites(ops)["k"];
    WritesAgreeExactly(ops);
  }

  /** Writing each key once is enough. */
  lemma WritesOnceAgree(ops: seq<Op>)
    requires WritesOnce(ops)
    ensures FirstsAreLasts(ops)
  {
    forall i: nat, j: nat | IsFirstPut(ops, i) && IsLastPut(ops, j) && ops[i].key == ops[j].key ensures i == j {
    }
  }

  /** The peer records the last values under its own spelling of the keys. */
  lemma {:induction false} PeerWritesMatch(ops: seq<Op>, f: Key)
    requires Completes(ops)
    ensures f in PeerWrites(ops) ==> ToFpc(f) in LastWrites(ops) && LastWrites(ops)[ToFpc(f)] == PeerWrites(ops)[f]
    ensures f in PeerWrites(ops) ==> Fabric(ToFpc(f)) == f
  {
    if ops != [] {
      var n := |ops| - 1;
      PeerWritesMatch(ops[..n], f);
      if ops[n].Put? {
        KeyRoundTrip(ops[n].key);
      }
    }
  }

  lemma {:induction false} LastWritesArePeerWrites(ops: seq<Op>, k: Key)
    requires Completes(ops)
    ensures k in LastWrites(ops) ==> Fabric(k) in PeerWrites(ops) && ToFpc(Fabric(k)) == k
  {
    if ops != [] {
      var n := |ops| - 1;
      LastWritesArePeerWrites(ops[..n], k);
      if ops[n].Put? {
        KeyRoundTrip(ops[n].key);
      }
    }
  }

  /** The validator's sorted writes. */
  function RebuiltWrites(writes: seq<Item<string>>): seq<Item<string>> {
    var keys := Sort(Transformed(KeysOf(writes)));
    WrittenAreMapped(writes);
    WithValues(keys, WriteMap(writes))
  }

  lemma WrittenAreMapped(writes: seq<Item<string>>)
    ensures forall k :: k in Sort(Transformed(KeysOf(writes))) ==> k in WriteMap(writes)
  {
    hide Sort, WriteMap;
    var keys := Transformed(KeysOf(writes));
    SortSorts(keys);
    forall k | k in Sort(keys) ensures k in WriteMap(writes) {
      assert k in multiset(Sort(keys));
      WriteMapKeys(writes, k);
    }
  }

  lemma {:induction false} WriteMapAt(writes: seq<Item<string>>, i: nat)
    requires i < |writes| && Distinct(Transformed(KeysOf(writes)))
    ensures ToFpc(writes[i].key) in WriteMap(writes) && WriteMap(writes)[ToFpc(writes[i].key)] == writes[i].value
  {
    hide ToFpc;
    var n := |writes| - 1;
    var ks := Transformed(KeysOf(writes));
    assert ks[i] == ToFpc(writes[i].key) && ks[n] == ToFpc(writes[n].key);
    if i < n {
      assert forall j :: 0 <= j < n ==> Transformed(KeysOf(writes[..n]))[j] == ks[j];
      WriteMapAt(writes[..n], i);
    }
  }

  /** The peer's write keys stay distinct in the enclave's spelling. */
  lemma TransformedDistinct(ops: seq<Op>, rw: RwSet)
    requires Completes(ops) && IsRwSet(rw, ops)
    ensures Distinct(Transformed(KeysOf(rw.writes)))
  {
    hide ToFpc, Fabric, PeerReads, PeerRanges, PeerWrites;
    var ks := Transformed(KeysOf(rw.writes));
    forall i, j | 0 <= i < j < |ks| ensures ks[i] != ks[j] {
      PeerWritesMatch(ops, rw.writes[i].key);
      PeerWritesMatch(ops, rw.writes[j].key);
      assert KeysOf(rw.writes)[i] != KeysOf(rw.writes)[j];
    }
  }

  lemma MapMatches(ops: seq<Op>, rw: RwSet, k: Key)
    requires Completes(ops) && IsRwSet(rw, ops)
    ensures k in WriteMap(rw.writes) <==> k in LastWrites(ops)
    ensures k in WriteMap(rw.writes) ==> WriteMap(rw.writes)[k] == LastWrites(ops)[k]
  {
    hide ToFpc, Fabric, PeerReads, PeerRanges, PeerWrites, LastWrites, WriteMap;
    TransformedDistinct(ops, rw);
    WriteMapKeys(rw.writes, k);
    if k in LastWrites(ops) {
      LastWritesArePeerWrites(ops, k);
      assert HasKey(rw.writes, Fabric(k));
      var i :| 0 <= i < |rw.writes| && rw.writes[i].key == Fabric(k);
      WriteMapAt(rw.writes, i);
      PeerWritesMatch(ops, rw.writes[i].key);
    }
    if k in WriteMap(rw.writes) {
      var i :| 0 <= i < |rw.writes| && Transformed(KeysOf(rw.writes))[i] == k;
      PeerWritesMatch(ops, rw.writes[i].key);
    }
  }

  lemma DistinctSorted(keys: seq<Key>)
    requires Distinct(keys)
    ensures StrictlyAscending(Sort(keys))
  {
    hide Sort;
    SortSorts(keys);
    var sorted := Sort(keys);
    forall i, j | 0 <= i < j < |sorted| ensures Less(sorted[i], sorted[j]) {
      LessTotal(sorted[i], sorted[j]);
      if sorted[i] == sorted[j] {
        Twice(sorted, i, j);
        DistinctCount(keys, sorted[i]);
      }
    }
  }

  lemma Twice(s: seq<Key>, i: nat, j: nat)
    requires i < j < |s| && s[i] == s[j]
    ensures multiset(s)[s[i]] > 1
  {
    assert s == s[..j] + [s[j]] + s[j + 1..];
    assert s[i] in s[..j];
    assert s[i] in multiset(s[..j]);
  }

  lemma {:induction false} DistinctCount(keys: seq<Key>, k: Key)
    requires Distinct(keys)
    ensures multiset(keys)[k] <= 1
  {
    if keys != [] {
      var n := |keys| - 1;
      assert keys == keys[..n] + [keys[n]];
      DistinctCount(keys[..n], k);
      if k == keys[n] {
        assert k !in keys[..n];
        assert k !in multiset(keys[..n]);
      }
    }
  }

  /** The validator's sorted writes are the enclave's ordered map of the last values. */
  lemma WriteListsMatch(ops: seq<Op>, rw: RwSet, writes: seq<Item<string>>)
    requires Completes(ops) && IsRwSet(rw, ops)
    requires Represents(writes, LastWrites(ops))
    ensures RebuiltWrites(rw.writes) == writes
  {
    hide IsRwSet, Sort, WriteMap, LastWrites, Transformed, KeysOf;
    var keys := Transformed(KeysOf(rw.writes));
    TransformedDistinct(ops, rw);
    DistinctSorted(keys);
    SortSorts(keys);
    var rebuilt := RebuiltWrites(rw.writes);
    WrittenAreMapped(rw.writes);
    assert Ordered(rebuilt);
    forall x ensures x in rebuilt <==> x in writes {
      MapMatches(ops, rw, x.key);
      WriteMapKeys(rw.writes, x.key);
      assert x.key in Sort(keys) <==> x.key in multiset(Sort(keys));
      assert x.key in keys <==> x.key in multiset(keys);
      if x in rebuilt {
        var i :| 0 <= i < |rebuilt| && rebuilt[i] == x;
        assert HasKey(writes, x.key);
        var j :| 0 <= j < |writes| && writes[j].key == x.key;
        assert writes[j] == x;
      }
      if x in writes {
        var j :| 0 <= j < |writes| && writes[j] == x;
        var i :| 0 <= i < |Sort(keys)| && Sort(keys)[i] == x.key;
        assert rebuilt[i] == x;
      }
    }
    OrderedUnique(rebuilt, writes);
  }

  // ----- agreement -----

  /** The sets of one namespace in a transaction. */
  datatype Namespaced = Namespaced(ns: string, rw: RwSet)

  /** What the validator hashes for the reads; the sets of other namespaces are skipped. */
  function ReadBytes(name: string, sets: seq<Namespaced>): string {
    if sets == [] then []
    else
      var n := |sets| - 1;
      ReadBytes(name, sets[..n]) + if sets[n].ns == name then Concat(Sort(ReadKeys(sets[n].rw))) else []
  }

  function WriteBytes(name: string, sets: seq<Namespaced>): string {
    if sets == [] then []
    else
      var n := |sets| - 1;
      WriteBytes(name, sets[..n]) + if sets[n].ns == name then ValueBytes(RebuiltWrites(sets[n].rw.writes)) else []
  }

  function ValidatorBytes(header: string, name: string, sets: seq<Namespaced>): string {
    header + ReadBytes(name, sets) + WriteBytes(name, sets)
  }

  /** A transaction holds one set of the chaincode's namespace, at position i. */
  predicate IsOnly(name: string, sets: seq<Namespaced>, i: nat) {
    i < |sets| && sets[i].ns == name && forall j :: 0 <= j < |sets| && j != i ==> sets[j].ns != name
  }

  lemma {:induction false} OtherNamespaces(name: string, sets: seq<Namespaced>)
    requires forall j :: 0 <= j < |sets| ==> sets[j].ns != name
    ensures ReadBytes(name, sets) == [] && WriteBytes(name, sets) == []
  {
    if sets != [] {
      OtherNamespaces(name, sets[..|sets| - 1]);
    }
  }

  lemma {:induction false} OnlyNamespace(name: string, sets: seq<Namespaced>, i: nat)
    requires IsOnly(name, sets, i)
    ensures ReadBytes(name, sets) == Concat(Sort(ReadKeys(sets[i].rw)))
    ensures WriteBytes(name, sets) == ValueBytes(RebuiltWrites(sets[i].rw.writes))
  {
    hide Concat, Sort, ReadKeys, RebuiltWrites, ValueBytes;
    var n := |sets| - 1;
    if i < n {
      OnlyNamespace(name, sets[..n], i);
    } else {
      OtherNamespaces(name, sets[..n]);
    }
  }

  lemma SameMiddle(header: string, x: string, y: string, end: string)
    ensures header + x + end == header + y + end <==> x == y
  {
    if header + x + end == header + y + end {
      assert |x| == |y|;
      assert (header + x + end)[|header|..|header| + |x|] == x;
      assert (header + y + end)[|header|..|header| + |y|] == y;
    }
  }

  /** The keys of a shorter ordered list take fewer bytes, strictly so when a key that is not empty is missing. */
  lemma {:induction false} FewerKeysFewerBytes(xs: seq<Key>, ys: seq<Key>, missing: Key)
    requires StrictlyAscending(xs) && StrictlyAscending(ys) && forall k :: k in xs ==> k in ys
    ensures |Concat(xs)| <= |Concat(ys)|
    ensures missing in ys && missing !in xs && missing != [] ==> |Concat(xs)| < |Concat(ys)|
    decreases |ys|
  {
    assert forall i :: 0 <= i < |xs| ==> xs[i] in xs;
    if ys != [] {
      TailKeys(ys);
      if xs != [] && xs[0] == ys[0] {
        TailKeys(xs);
        FewerKeysFewerBytes(xs[1..], ys[1..], missing);
      } else {
        HeadIsLeast(xs, ys);
        FewerKeysFewerBytes(xs, ys[1..], missing);
      }
    }
  }

  lemma TailKeys(keys: seq<Key>)
    requires StrictlyAscending(keys) && keys != []
    ensures StrictlyAscending(keys[1..])
    ensures forall k :: k in keys[1..] <==> k in keys && k != keys[0]
  {
    var rest := keys[1..];
    assert keys == [keys[0]] + rest;
    assert forall i :: 0 <= i < |rest| ==> rest[i] == keys[i + 1];
    LessIrreflexive(keys[0]);
    assert keys[0] !in rest;
  }

  lemma HeadIsLeast(xs: seq<Key>, ys: seq<Key>)
    requires StrictlyAscending(xs) && StrictlyAscending(ys) && ys != [] && (forall k :: k in xs ==> k in ys)
    requires xs == [] || xs[0] != ys[0]
    ensures ys[0] !in xs
  {
    if ys[0] in xs {
      var i :| 0 <= i < |xs| && xs[i] == ys[0];
      assert xs[0] in xs;
      var j :| 0 <= j < |ys| && ys[j] == xs[0];
      assert Less(xs[0], xs[i]) && Less(ys[0], ys[j]);
      LessTransitive(xs[0], ys[0], xs[0]);
      LessIrreflexive(xs[0]);
    }
  }

  /** Without repeated keys, a scanned key that is not shown makes the rebuilt bytes shorter. */
  lemma UnlistedReadsDiffer(ops: seq<Op>, rw: RwSet, readKeys: seq<Key>, k: Key)
    requires Completes(ops) && IsRwSet(rw, ops) && !Repeated(ReadKeys(rw))
    requires StrictlyAscending(readKeys) && forall x :: x in readKeys <==> x in EnclaveReads(ops)
    requires Unlisted(ops, k) && k !in ReadKeys(rw)
    ensures Concat(readKeys) != Concat(Sort(ReadKeys(rw)))
  {
    hide EnclaveReads, IsRwSet, ReadKeys, Sort, Unlisted, Concat;
    UnlistedNotEmpty(ops, k);
    var keys := ReadKeys(rw);
    var sorted := Sort(keys);
    SortSorts(keys);
    SqueezeAscends(sorted);
    SqueezeBytes(sorted);
    forall x ensures x in Squeeze(sorted) <==> x in keys {
      assert x in sorted <==> x in multiset(sorted);
      assert x in keys <==> x in multiset(keys);
    }
    forall x | x in Squeeze(sorted) ensures x in readKeys {
      ReadKeysMatch(ops, rw, x);
    }
    ReadKeysMatch(ops, rw, k);
    assert Repeated(sorted) <==> Repeated(keys);
    FewerKeysFewerBytes(Squeeze(sorted), readKeys, k);
  }

  lemma UnlistedNotEmpty(ops: seq<Op>, k: Key)
    requires Completes(ops) && Unlisted(ops, k)
    ensures k != []
  {
    var i :| 0 <= i < |ops| && ops[i].Scan? && !ops[i].listed && k in Transformed(ops[i].found);
    var j :| 0 <= j < |ops[i].found| && ToFpc(ops[i].found[j]) == k;
    assert ops[i].found[j] in ops[i].found;
  }

  /** What the enclave knows when it signs: its ordered read set and write set after these operations. */
  ghost predicate Signs(ops: seq<Op>, readKeys: seq<Key>, writes: seq<Item<string>>) {
    && StrictlyAscending(readKeys) && (forall k :: k in readKeys <==> k in EnclaveReads(ops))
    && Represents(writes, EnclaveWrites(ops))
  }

  lemma MiddlesDecide(ops: seq<Op>, rw: RwSet, header: string, name: string, sets: seq<Namespaced>, i: nat,
                      readKeys: seq<Key>, writes: seq<Item<string>>)
    requires Completes(ops) && FirstsAreLasts(ops) && IsRwSet(rw, ops) && Signs(ops, readKeys, writes)
    requires IsOnly(name, sets, i) && sets[i].rw == rw
    ensures EnclaveBytes(header, readKeys, writes) == ValidatorBytes(header, name, sets) <==>
            Concat(readKeys) == Concat(Sort(ReadKeys(rw)))
  {
    hide IsRwSet, EnclaveReads, StrictlyAscending, Represents, Sort, ReadKeys, RebuiltWrites, Concat, ValueBytes,
         EnclaveWrites, LastWrites, FirstsAreLasts, Completes, ReadBytes, WriteBytes, IsOnly;
    WritesAgreeExactly(ops);
    WriteListsMatch(ops, rw, writes);
    OnlyNamespace(name, sets, i);
    SameMiddle(header, Concat(readKeys), Concat(Sort(ReadKeys(rw))), ValueBytes(writes));
  }

  /**
   * For a transaction in which the first and last value written to each key are equal, the bytes the enclave signs are
   * the bytes the validator rebuilds: when every scanned key is shown, exactly when no key is shown twice; and when no
   * key is shown twice, exactly when every scanned key is shown.
   */
  lemma SignedBytesAgreeExactly(ops: seq<Op>, rw: RwSet, header: string, name: string, sets: seq<Namespaced>, i: nat,
                                readKeys: seq<Key>, writes: seq<Item<string>>)
    requires Completes(ops) && FirstsAreLasts(ops) && IsRwSet(rw, ops) && Signs(ops, readKeys, writes)
    requires IsOnly(name, sets, i) && sets[i].rw == rw
    ensures var agree := EnclaveBytes(header, readKeys, writes) == ValidatorBytes(header, name, sets);
            && (AllListed(ops, rw) ==> (agree <==> !Repeated(ReadKeys(rw))))
            && (!Repeated(ReadKeys(rw)) ==> (agree <==> AllListed(ops, rw)))
  {
    MiddlesDecide(ops, rw, header, name, sets, i, readKeys, writes);
    hide IsRwSet, EnclaveReads, StrictlyAscending, Represents, Sort, ReadKeys, Concat, Squeeze, EnclaveWrites,
         FirstsAreLasts, Completes, EnclaveBytes, ValidatorBytes, IsOnly, Unlisted;
    var sorted := Sort(ReadKeys(rw));
    SortSorts(ReadKeys(rw));
    if AllListed(ops, rw) {
      ReadListsMatch(ops, rw, readKeys);
      SqueezeBytes(sorted);
      assert Repeated(sorted) <==> Repeated(ReadKeys(rw));
    } else if !Repeated(ReadKeys(rw)) {
      var k :| Unlisted(ops, k) && k !in ReadKeys(rw);
      UnlistedReadsDiffer(ops, rw, readKeys, k);
    }
  }

  // ----- the enclave's loops -----

  lemma InsertKeyStrict(keys: seq<Key>, k: Key)
    requires StrictlyAscending(keys) && k !in keys
    ensures StrictlyAscending(InsertKey(keys, k)) && forall x :: x in InsertKey(keys, k) <==> x in keys || x == k
  {
    forall i, j | 0 <= i < j < |keys| ensures keys[i] != keys[j] && !Less(keys[j], keys[i]) {
      LessIrreflexive(keys[i]);
      if Less(keys[j], keys[i]) {
        LessTransitive(keys[i], keys[j], keys[i]);
      }
    }
    InsertKeySorts(keys, k);
    hide InsertKey;
    assert k !in multiset(keys);
    var r := InsertKey(keys, k);
    forall x ensures x in r <==> x in keys || x == k {
      assert x in r <==> x in multiset(r);
      assert x in keys <==> x in multiset(keys);
    }
    forall i, j | 0 <= i < j < |r| ensures Less(r[i], r[j]) {
      LessTotal(r[i], r[j]);
      if r[i] == r[j] {
        Twice(r, i, j);
        DistinctCount(keys, r[i]);
      }
    }
  }

  /** The shim context of one invocation: the ordered set of keys read and the ordered map of values written. */
  class ShimContext {
    var readSet: seq<Key>
    var writeSet: seq<Item<string>>
    ghost var ops: seq<Op>

    ghost predicate Valid()
      reads this
    {
      Signs(ops, readSet, writeSet)
    }

    constructor ()
      ensures Valid() && ops == []
    {
      readSet, writeSet, ops := [], [], [];
    }

    method InsertRead(k: Key)
      requires StrictlyAscending(readSet)
      modifies this`readSet
      ensures StrictlyAscending(readSet) && forall x :: x in readSet <==> x in old(readSet) || x == k
    {
      if k !in readSet {
        InsertKeyStrict(readSet, k);
        readSet := InsertKey(readSet, k);
      }
    }

    method GetPublicState(k: Key)
      requires Valid()
      modifies this
      ensures Valid() && ops == old(ops) + [Get(k)]
    {
      hide Represents, StrictlyAscending, EnclaveReads, EnclaveWrites;
      InsertRead(k);
      RecordedNext(ops, Get(k));
      ops := ops + [Get(k)];
    }

    method PutPublicState(k: Key, value: string)
      requires Valid()
      modifies this
      ensures Valid() && ops == old(ops) + [Put(k, value)]
    {
      hide StrictlyAscending, EnclaveReads, EnclaveWrites;
      RecordedNext(ops, Put(k, value));
      if !HasKey(writeSet, k) {
        PutRepresents(writeSet, EnclaveWrites(ops), k, value);
        writeSet := ByteOrder.Put(writeSet, k, value);
      }
      ops := ops + [Put(k, value)];
    }

    /** Every key that a range read returns is recorded, whether or not the peer will list it. */
    method GetPublicStateByPartialCompositeKey(found: seq<Key>, ghost listed: bool)
      requires Valid()
      modifies this
      ensures Valid() && ops == old(ops) + [Scan(found, listed)]
    {
      hide Represents, ToFpc, EnclaveReads, EnclaveWrites, StrictlyAscending;
      ghost var before := readSet;
      for i := 0 to |found|
        invariant StrictlyAscending(readSet) && writeSet == old(writeSet) && ops == old(ops)
        invariant forall x :: x in readSet <==> x in before || x in Transformed(found)[..i]
      {
        InsertRead(ToFpc(found[i]));
        assert Transformed(found)[..i + 1] == Transformed(found)[..i] + [ToFpc(found[i])];
      }
      assert Transformed(found)[..|found|] == Transformed(found);
      RecordedNext(ops, Scan(found, listed));
      ops := ops + [Scan(found, listed)];
    }

    /** The bytes that are hashed and signed. */
    method GenResponse(txType: string, args: string, response: string) returns (bytes: string)
      requires Valid()
      ensures bytes == EnclaveBytes(txType + args + response, readSet, writeSet)
    {
      var header := txType + args + response;
      bytes := AppendKeys(header, readSet);
      bytes := AppendItems(bytes, writeSet);
    }
  }

  /** One more operation. */
  lemma RecordedNext(ops: seq<Op>, op: Op)
    ensures forall k :: k in EnclaveReads(ops + [op]) <==>
              k in EnclaveReads(ops) || (op.Get? && k == op.key) || (op.Scan? && k in Transformed(op.found))
    ensures EnclaveWrites(ops + [op]) ==
            if op.Put? && op.key !in EnclaveWrites(ops) then EnclaveWrites(ops)[op.key := op.value]
            else EnclaveWrites(ops)
  {
    hide ToFpc;
    assert (ops + [op])[..|ops|] == ops;
    if op.Scan? {
      ScannedSet(op.found);
    }
  }

  lemma ScannedSet(found: seq<Key>)
    ensures forall k :: k in Transformed(found) <==> k in set i | 0 <= i < |found| :: ToFpc(found[i])
  {
    hide ToFpc;
    var scanned := set i | 0 <= i < |found| :: ToFpc(found[i]);
    forall k ensures k in Transformed(found) <==> k in scanned {
      if k in Transformed(found) {
        var i :| 0 <= i < |found| && Transformed(found)[i] == k;
        assert ToFpc(found[i]) in scanned;
      }
      if k in scanned {
        var i :| 0 <= i < |found| && ToFpc(found[i]) == k;
        assert Transformed(found)[i] == k;
      }
    }
  }

  /** Feed the keys to the hash, one after the other. */
  method AppendKeys(start: string, keys: seq<Key>) returns (bytes: string)
    ensures bytes == start + Concat(keys)
  {
    bytes := start;
    for i := 0 to |keys|
      invariant bytes + Concat(keys[i..]) == start + Concat(keys)
    {
      ghost var before, rest := bytes, Concat(keys[i + 1..]);
      assert keys[i..][1..] == keys[i + 1..];
      bytes := bytes + keys[i];
      assert bytes + rest == before + (keys[i] + rest);
    }
    assert keys[|keys|..] == [];
    assert bytes + [] == bytes;
  }

  /** Feed keys and values to the hash, one after the other. */
  method AppendItems(start: string, items: seq<Item<string>>) returns (bytes: string)
    ensures bytes == start + ValueBytes(items)
  {
    bytes := start;
    for i := 0 to |items|
      invariant bytes + ValueBytes(items[i..]) == start + ValueBytes(items)
    {
      ghost var before, rest := bytes, ValueBytes(items[i + 1..]);
      assert items[i..][1..] == items[i + 1..];
      assert ValueBytes(items[i..]) == items[i].key + items[i].value + rest;
      bytes := bytes + items[i].key;
      bytes := bytes + items[i].value;
      assert bytes + rest == before + (items[i].key + items[i].value + rest);
    }
    assert items[|items|..] == [];
    assert bytes + [] == bytes;
  }

  // ----- the validator's loops -----

  method TransformKeys(start: seq<Key>, keys: seq<Key>) returns (r: seq<Key>)
    ensures r == start + Transformed(keys)
  {
    hide ToFpc;
    r := start;
    for i := 0 to |keys|
      invariant r == start + Transformed(keys)[..i]
    {
      r := r + [ToFpc(keys[i])];
    }
  }

  method SortStrings(keys: seq<Key>) returns (sorted: seq<Key>)
    ensures sorted == Sort(keys)
  {
    hide InsertKey;
    sorted := [];
    for i := 0 to |keys|
      invariant sorted == Sort(keys[..i])
    {
      assert keys[..i + 1][..i] == keys[..i];
      sorted := InsertKey(sorted, keys[i]);
    }
    assert keys[..|keys|] == keys;
  }

  /** The read keys of one namespace: direct reads, then range queries; those without a list are skipped. */
  method CollectReads(rw: RwSet) returns (keys: seq<Key>)
    ensures keys == ReadKeys(rw)
  {
    hide ToFpc;
    keys := TransformKeys([], rw.points);
    for i := 0 to |rw.ranges|
      invariant keys == Transformed(rw.points + RawReads(rw.ranges[..i]))
    {
      assert rw.ranges[..i + 1][..i] == rw.ranges[..i];
      if rw.ranges[i].None? {
        continue;
      }
      TransformedAppend(rw.points + RawReads(rw.ranges[..i]), rw.ranges[i].value);
      keys := TransformKeys(keys, rw.ranges[i].value);
      assert rw.points + RawReads(rw.ranges[..i + 1]) == rw.points + RawReads(rw.ranges[..i]) + rw.ranges[i].value;
    }
    assert rw.ranges[..|rw.ranges|] == rw.ranges;
  }

  /**
   * Rebuild and sort the read and write sets of the chaincode's namespace, and concatenate what the signature is
   * checked against.
   */
  method CheckedBytes(header: string, name: string, sets: seq<Namespaced>) returns (bytes: string)
    ensures bytes == ValidatorBytes(header, name, sets)
  {
    hide Sort, Concat, ValueBytes, ToFpc, ReadKeys, RebuiltWrites;
    var readset: string, writeset: string := [], [];
    for i := 0 to |sets|
      invariant readset == ReadBytes(name, sets[..i]) && writeset == WriteBytes(name, sets[..i])
    {
      assert sets[..i + 1][..i] == sets[..i];
      if sets[i].ns != name {
        continue;
      }
      var keys := CollectReads(sets[i].rw);
      keys := SortStrings(keys);
      readset := AppendKeys(readset, keys);
      var writes := SortedWrites(sets[i].rw.writes);
      writeset := AppendItems(writeset, writes);
    }
    assert sets[..|sets|] == sets;
    bytes := header + readset + writeset;
  }

  method SortedWrites(writes: seq<Item<string>>) returns (items: seq<Item<string>>)
    ensures items == RebuiltWrites(writes)
  {
    hide ToFpc, Sort;
    var keys: seq<Key>, values: map<Key, string> := [], map[];
    for i := 0 to |writes|
      invariant keys == Transformed(KeysOf(writes))[..i] && values == WriteMap(writes[..i])
    {
      assert writes[..i + 1][..i] == writes[..i];
      keys := keys + [ToFpc(writes[i].key)];
      values := values[ToFpc(writes[i].key) := writes[i].value];
    }
    assert writes[..|writes|] == writes;
    assert keys == Transformed(KeysOf(writes));
    keys := SortStrings(keys);
    WrittenAreMapped(writes);
    hide WriteMap;
    items := [];
    for i := 0 to |keys|
      invariant items == WithValues(keys, values)[..i]
    {
      assert keys[i] in keys;
      items := items + [Item(keys[i], values[keys[i]])];
    }
  }

  /** A whole invocation: what the context signs is what the validator checks, under the same exact conditions. */
  lemma InvocationAgrees(c: ShimContext, rw: RwSet, header: string, name: string, sets: seq<Namespaced>, i: nat)
    requires c.Valid() && Completes(c.ops) && FirstsAreLasts(c.ops) && IsRwSet(rw, c.ops)
    requires IsOnly(name, sets, i) && sets[i].rw == rw
    ensures var agree := EnclaveBytes(header, c.readSet, c.writeSet) == ValidatorBytes(header, name, sets);
            && (AllListed(c.ops, rw) ==> (agree <==> !Repeated(ReadKeys(rw))))
            && (!Repeated(ReadKeys(rw)) ==> (agree <==> AllListed(c.ops, rw)))
  {
    SignedBytesAgreeExactly(c.ops, rw, header, name, sets, i, c.readSet, c.writeSet);
  }
}
