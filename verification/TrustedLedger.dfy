/** The state of the ledger enclave and the loops that check and commit blocks (tlcc_enclave/enclave/ledger.cpp). */
module TrustedLedger {
  import opened Basics
  import opened ByteOrder
  import opened Ledger
  import opened LedgerRuns
  import opened Queries

  // ----- ledger keys -----

  /** Walk over the NUL-separated components of a composite key, replacing each NUL with a dot. */
  method BuildCompositeKey(ns: string, key: string) returns (k: Key)
    ensures k == CompositeKey(ns, key)
  {
    k := ns + ".";
    if key == [] {
      return;
    }
    var rest := key[1..];
    assert k + Dotted(rest) == CompositeKey(ns, key);
    hide Dotted, CompositeKey;
    while CString(rest) != []
      invariant k + Dotted(rest) == CompositeKey(ns, key)
      decreases |rest|
    {
      var piece := CString(rest);
      ghost var before := k;
      k := k + piece;
      k := k + ".";
      var next := if |piece| == |rest| then [] else rest[|piece| + 1..];
      DottedStep(rest, next);
      assert k + Dotted(next) == before + (piece + "." + Dotted(next));
      rest := next;
    }
    DottedEnd(rest);
  }

  lemma DottedStep(rest: string, next: string)
    requires CString(rest) != []
    requires next == if |CString(rest)| == |rest| then [] else rest[|CString(rest)| + 1..]
    ensures Dotted(rest) == CString(rest) + "." + Dotted(next)
  {
    assert Dotted([]) == [];
  }

  lemma DottedEnd(rest: string)
    requires CString(rest) == []
    ensures Dotted(rest) == []
  {
  }

  /** The key of a write: composite keys are rewritten only for chaincode namespaces. */
  method BuildWriteKey(ns: string, key: string) returns (k: Key)
    ensures k == WriteKey(ns, key)
  {
    if "ecc" <= ns && IsComposite(key) {
      k := BuildCompositeKey(ns, key);
    } else {
      k := ns + "." + CString(key);
    }
  }

  // ----- ordered maps -----

  lemma LowerBoundFinds<V>(items: seq<Item<V>>, i: nat, k: Key)
    requires Ordered(items) && IsLowerBound(items, i, k)
    ensures HasKey(items, k) <==> i < |items| && items[i].key == k
  {
    LessIrreflexive(k);
    if j :| 0 <= j < |items| && items[j].key == k {
      LessTotal(items[i].key, k);
    }
  }

  method Find<V>(items: seq<Item<V>>, ghost m: map<Key, V>, k: Key) returns (r: Option<V>)
    requires Represents(items, m)
    ensures r == if k in m then Some(m[k]) else None
  {
    var i := LowerBound(items, k);
    LowerBoundFinds(items, i, k);
    if i < |items| && items[i].key == k {
      r := Some(items[i].value);
    } else {
      r := None;
    }
  }

  method HasConflict(items: seq<Item<Entry>>, ghost m: Store, r: Read) returns (conflict: bool)
    requires Represents(items, m)
    ensures conflict == HasVersionConflict(m, r)
  {
    var found := Find(items, m, r.key);
    conflict := found.Some? && CmpVersion(r.version, found.value.version) == -1;
  }

  // ----- the writes of one transaction -----

  /** Insert unless the key is already there. */
  method Insert(items: seq<Item<Entry>>, ghost m: Store, w: Write, version: Version) returns (r: seq<Item<Entry>>)
    requires Represents(items, m)
    ensures Represents(r, InsertAll(m, [w], version))
  {
    var found := Find(items, m, w.key);
    r := items;
    assert InsertAll(m, [w], version) == if w.key in m then m else m[w.key := Entry(w.value, version)];
    if found.None? {
      PutRepresents(items, m, w.key, Entry(w.value, version));
      r := Put(items, w.key, Entry(w.value, version));
    }
  }

  lemma {:induction false} InsertAllAppend(m: Store, xs: seq<Write>, ys: seq<Write>, version: Version)
    ensures InsertAll(m, xs + ys, version) == InsertAll(InsertAll(m, xs, version), ys, version)
    decreases |xs|
  {
    if xs == [] {
      assert xs + ys == ys;
    } else {
      assert (xs + ys)[1..] == xs[1..] + ys;
      InsertAllAppend(InsertAll(m, [xs[0]], version), xs[1..], ys, version);
      assert InsertAll(m, xs, version) == InsertAll(InsertAll(m, [xs[0]], version), xs[1..], version);
      assert InsertAll(m, xs + ys, version) == InsertAll(InsertAll(m, [xs[0]], version), xs[1..] + ys, version);
    }
  }

  /** How many writes of a namespace are recorded: those of the system namespaces and of names beginning with ecc. */
  function RecordedCount(r: NsRwSet): nat {
    if r.ns == "lscc" then |r.writes|
    else if r.ns == "ercc" then (if |r.writes| == 0 then 0 else 1)
    else if "ecc" <= r.ns then |r.writes|
    else 0
  }

  lemma RecordedWrites(r: NsRwSet)
    ensures |SetWrites(r)| == RecordedCount(r) <= |r.writes|
    ensures forall i :: 0 <= i < |SetWrites(r)| ==>
              SetWrites(r)[i] == Write(WriteKey(r.ns, r.writes[i].key), r.writes[i].value)
  {
    hide WriteKey;
  }

  /** The writes of one namespace. */
  method InsertSetWrites(items: seq<Item<Entry>>, ghost m: Store, r: NsRwSet, version: Version)
    returns (out: seq<Item<Entry>>)
    requires Represents(items, m)
    ensures Represents(out, InsertAll(m, SetWrites(r), version))
  {
    RecordedWrites(r);
    hide Represents, SetWrites, InsertAll, WriteKey, RecordedCount;
    out := items;
    ghost var writes := SetWrites(r);
    assert InsertAll(m, writes[..0], version) == m by { InsertNone(m, version); }
    for i := 0 to RecordedCount(r)
      invariant Represents(out, InsertAll(m, writes[..i], version))
    {
      var key := BuildWriteKey(r.ns, r.writes[i].key);
      assert writes[..i + 1] == writes[..i] + [writes[i]];
      InsertAllAppend(m, writes[..i], [writes[i]], version);
      out := Insert(out, InsertAll(m, writes[..i], version), Write(key, r.writes[i].value), version);
    }
    assert writes[..|writes|] == writes;
  }

  lemma InsertNone(m: Store, version: Version)
    ensures InsertAll(m, [], version) == m
  {
  }

  lemma {:induction false} WritesOfAppend(xs: seq<NsRwSet>, r: NsRwSet)
    ensures WritesOf(xs + [r]) == WritesOf(xs) + SetWrites(r)
  {
    if xs == [] {
      assert (xs + [r])[1..] == [];
    } else {
      assert (xs + [r])[1..] == xs[1..] + [r];
      WritesOfAppend(xs[1..], r);
    }
  }

  lemma {:induction false} ReadsOfAppend(xs: seq<NsRwSet>, r: NsRwSet)
    ensures ReadsOf(xs + [r]) == ReadsOf(xs) + SetReads(r)
  {
    if xs == [] {
      assert (xs + [r])[1..] == [];
    } else {
      assert (xs + [r])[1..] == xs[1..] + [r];
      ReadsOfAppend(xs[1..], r);
    }
  }

  method InsertWrites(items: seq<Item<Entry>>, ghost m: Store, sets: seq<NsRwSet>, version: Version)
    returns (out: seq<Item<Entry>>)
    requires Represents(items, m)
    ensures Represents(out, InsertAll(m, WritesOf(sets), version))
  {
    hide Represents, SetWrites;
    out := items;
    for i := 0 to |sets|
      invariant Represents(out, InsertAll(m, WritesOf(sets[..i]), version))
    {
      assert sets[..i + 1] == sets[..i] + [sets[i]];
      WritesOfAppend(sets[..i], sets[i]);
      InsertAllAppend(m, WritesOf(sets[..i]), SetWrites(sets[i]), version);
      out := InsertSetWrites(out, InsertAll(m, WritesOf(sets[..i]), version), sets[i], version);
    }
    assert sets[..|sets|] == sets;
  }

  /** The state map and the sequence number. */
  class TrustedLedger {
    var items: seq<Item<Entry>>
    var sequence: nat
    ghost var store: Store

    ghost predicate Valid()
      reads this
    {
      Represents(items, store)
    }

    ghost function View(): State
      reads this
    {
      State(store, sequence)
    }

    constructor ()
      ensures Valid() && View() == GENESIS
    {
      items, store := [], map[];
      sequence := WORD - 1;
    }

    method CheckRead(updates: seq<Item<Entry>>, ghost u: Store, r: Read) returns (conflict: bool)
      requires Valid() && Represents(updates, u)
      ensures conflict == Conflicted(store, u, [r])
    {
      conflict := HasConflict(items, store, r);
      if !conflict {
        conflict := HasConflict(updates, u, r);
      }
      assert [r][0] == r;
    }

    /** The keys that range queries of one namespace have returned. */
    method CheckRangeReads(updates: seq<Item<Entry>>, ghost u: Store, r: NsRwSet) returns (valid: bool)
      requires Valid() && Represents(updates, u)
      ensures valid == !Conflicted(store, u, SetReads(r)[..|r.rangeReads|])
    {
      hide Conflicted;
      valid := true;
      ghost var all := SetReads(r);
      assert !Conflicted(store, u, []) by { NoReadsNoConflict(store, u); }
      for i := 0 to |r.rangeReads|
        invariant valid == !Conflicted(store, u, all[..i])
      {
        var key := BuildCompositeKey(r.ns, r.rangeReads[i].key);
        var read := Read(key, r.rangeReads[i].version);
        var conflict := CheckRead(updates, u, read);
        if conflict {
          valid := false;
        }
        assert all[..i + 1] == all[..i] + [read];
        ConflictedAppend(store, u, all[..i], [read]);
      }
    }

    /** The reads of one namespace: first those of range queries, then the others. */
    method CheckSetReads(updates: seq<Item<Entry>>, ghost u: Store, r: NsRwSet) returns (valid: bool)
      requires Valid() && Represents(updates, u)
      ensures valid == !Conflicted(store, u, SetReads(r))
    {
      hide Conflicted;
      valid := CheckRangeReads(updates, u, r);
      ghost var all := SetReads(r);
      for i := 0 to |r.pointReads|
        invariant valid == !Conflicted(store, u, all[..|r.rangeReads| + i])
      {
        var read := Read(r.ns + "." + CString(r.pointReads[i].key), r.pointReads[i].version);
        var conflict := CheckRead(updates, u, read);
        if conflict {
          valid := false;
        }
        ghost var n := |r.rangeReads| + i;
        assert all[..n + 1] == all[..n] + [read];
        ConflictedAppend(store, u, all[..n], [read]);
      }
      assert all[..|all|] == all;
    }

    method CheckReads(updates: seq<Item<Entry>>, ghost u: Store, sets: seq<NsRwSet>) returns (valid: bool)
      requires Valid() && Represents(updates, u)
      ensures valid == !Conflicted(store, u, ReadsOf(sets))
    {
      hide Conflicted, SetReads;
      valid := true;
      assert !Conflicted(store, u, []) by { NoReadsNoConflict(store, u); }
      for i := 0 to |sets|
        invariant valid == !Conflicted(store, u, ReadsOf(sets[..i]))
      {
        var ok := CheckSetReads(updates, u, sets[i]);
        if !ok {
          valid := false;
        }
        assert sets[..i + 1] == sets[..i] + [sets[i]];
        ReadsOfAppend(sets[..i], sets[i]);
        ConflictedAppend(store, u, ReadsOf(sets[..i]), SetReads(sets[i]));
      }
      assert sets[..|sets|] == sets;
    }

    /** Validate every action against state and updates, and add the writes of the valid ones to the updates. */
    method ParseEndorserTransaction(updates: seq<Item<Entry>>, ghost u: Store, actions: seq<Action>, version: Version)
      returns (out: seq<Item<Entry>>)
      requires Valid() && Represents(updates, u)
      ensures Represents(out, ApplyActions(store, u, actions, version))
    {
      hide Represents, Conflicted;
      out := updates;
      ghost var now := u;
      for i := 0 to |actions|
        invariant Represents(out, now)
        invariant ApplyActions(store, now, actions[i..], version) == ApplyActions(store, u, actions, version)
      {
        ghost var next := ApplyAction(store, now, actions[i], version);
        assert actions[i..][1..] == actions[i + 1..];
        if actions[i].results.Some? {
          var valid := CheckReads(out, now, actions[i].results.value);
          if valid {
            out := InsertWrites(out, now, actions[i].results.value, version);
          }
        }
        now := next;
      }
    }

    /** Assign the updates one key after the other. */
    method CommitStateUpdates(updates: seq<Item<Entry>>, ghost u: Store, number: nat)
      requires Valid() && Represents(updates, u)
      modifies this
      ensures Valid() && View() == State(old(store) + u, number)
    {
      sequence := number;
      OverlayIsUnion(store, updates, u);
      hide Represents;
      for i := 0 to |updates|
        invariant Represents(items, store) && sequence == number
        invariant Overlay(store, updates[i..]) == old(store) + u
      {
        PutRepresents(items, store, updates[i].key, updates[i].value);
        assert updates[i..][1..] == updates[i + 1..];
        items := Put(items, updates[i].key, updates[i].value);
        store := store[updates[i].key := updates[i].value];
      }
    }

    method ParseBlock(b: Block) returns (code: Code)
      requires Valid()
      modifies this
      ensures Valid() && (View(), code) == Deliver(old(View()), b)
    {
      hide ApplyActions;
      var number := b.number % WORD;
      if number != (sequence + 1) % WORD {
        return InvalidBlockNumber;
      }
      var updates: seq<Item<Entry>> := [];
      ghost var u: Store := map[];
      assert BlockUpdates(store, b, 0, u) == BlockUpdates(store, b, 0, map[]);
      for i := 0 to |b.envelopes|
        invariant Valid() && unchanged(this)
        invariant Represents(updates, u)
        invariant BlockUpdates(store, b, i, u) == BlockUpdates(store, b, 0, map[])
      {
        var e := b.envelopes[i];
        if e.invalid {
          continue;
        }
        if e.body.Undecodable? {
          return ErrorDecoding;
        }
        if e.body.Endorser? {
          updates := ParseEndorserTransaction(updates, u, e.body.actions, Version(b.number, i));
          u := ApplyActions(store, u, e.body.actions, Version(b.number, i));
        }
      }
      CommitStateUpdates(updates, u, number);
      return Success;
    }

    /** The digest of one value; zeros when the key is absent. */
    method GetStateHash(key: Key, hash: Hash) returns (digest: string)
      requires Valid()
      ensures digest == if key in store then hash(store[key].value) else ZEROS
    {
      var found := Find(items, store, key);
      digest := if found.Some? then hash(found.value.value) else ZEROS;
    }

    /** The digest over all entries whose key has the prefix, in key order. */
    method GetMultiStateHash(p: Key, hash: Hash) returns (digest: string)
      requires Valid()
      ensures digest == hash(EntryBytes(WithPrefix(items, p)))
      ensures forall i, j :: 0 <= i < j < |WithPrefix(items, p)| ==>
                ComesBefore(WithPrefix(items, p)[i].key, WithPrefix(items, p)[j].key)
    {
      KeptOrdered(items, p);
      OrderedExactly(WithPrefix(items, p));
      var i := LowerBound(items, p);
      ScanIsFilter(items, i, p);
      var bytes := Scan(items, i, p);
      digest := hash(bytes);
    }
  }

  /** The iteration over the entries, up to the first key without the prefix. */
  method Scan(items: seq<Item<Entry>>, start: nat, p: Key) returns (bytes: string)
    requires start <= |items|
    ensures bytes == ScanFrom(items, start, p)
  {
    hide FromDot;
    bytes := [];
    var i := start;
    while i < |items| && p <= items[i].key
      invariant start <= i <= |items|
      invariant bytes + ScanFrom(items, i, p) == ScanFrom(items, start, p)
    {
      ghost var before, rest := bytes, ScanFrom(items, i + 1, p);
      assert ScanFrom(items, i, p) == FromDot(items[i].key) + items[i].value.value + rest;
      bytes := bytes + FromDot(items[i].key);
      bytes := bytes + items[i].value.value;
      assert bytes + rest == before + (FromDot(items[i].key) + items[i].value.value + rest);
      i := i + 1;
    }
    assert bytes + [] == bytes;
  }

  // ----- assigning one key after the other -----

  function Overlay(store: Store, items: seq<Item<Entry>>): Store
    decreases |items|
  {
    if items == [] then store else Overlay(store[items[0].key := items[0].value], items[1..])
  }

  lemma {:induction false} OverlayAt(store: Store, items: seq<Item<Entry>>, k: Key)
    requires Ordered(items)
    ensures k in Overlay(store, items) <==> k in store || HasKey(items, k)
    ensures !HasKey(items, k) && k in store ==> Overlay(store, items)[k] == store[k]
    ensures forall i :: 0 <= i < |items| && items[i].key == k ==> Overlay(store, items)[k] == items[i].value
    decreases |items|
  {
    if items != [] {
      var rest := items[1..];
      assert forall i :: 0 <= i < |rest| ==> rest[i] == items[i + 1];
      OverlayAt(store[items[0].key := items[0].value], rest, k);
      assert HasKey(rest, k) ==> HasKey(items, k);
      if HasKey(items, k) {
        var i :| 0 <= i < |items| && items[i].key == k;
        assert i > 0 ==> rest[i - 1].key == k;
      }
      LessIrreflexive(items[0].key);
      assert !HasKey(rest, items[0].key);
    }
  }

  /** Assigning every entry of a map is the union with that map. */
  lemma OverlayIsUnion(store: Store, items: seq<Item<Entry>>, u: Store)
    requires Represents(items, u)
    ensures Overlay(store, items) == store + u
  {
    forall k
      ensures k in Overlay(store, items) <==> k in store + u
      ensures k in store + u ==> Overlay(store, items)[k] == (store + u)[k]
    {
      OverlayAt(store, items, k);
      assert HasKey(items, k) <==> k in u;
    }
  }
}
