/** What a delivery answers and what a transaction leaves under each key (tlcc_enclave/enclave/ledger.cpp). */
module LedgerEffects {
  import opened Basics
  import opened ByteOrder
  import opened Ledger
  import opened LedgerRuns

  // ----- versions -----

  /** Versions are ordered by block, then by transaction. */
  lemma OlderExactly(v: Version, w: Version)
    ensures Older(v, w) <==> v.block < w.block || (v.block == w.block && v.tx < w.tx)
    ensures CmpVersion(v, w) == 0 <==> v == w
    ensures CmpVersion(v, w) == -CmpVersion(w, v)
  {
  }

  // ----- the answer to a delivery -----

  predicate Unreadable(b: Block, i: int) {
    0 <= i < |b.envelopes| && !b.envelopes[i].invalid && b.envelopes[i].body.Undecodable?
  }

  lemma {:induction false} UpdatesUnlessUnreadable(state: Store, b: Block, i: nat, updates: Store)
    requires i <= |b.envelopes|
    ensures BlockUpdates(state, b, i, updates).None? <==> exists j :: i <= j && Unreadable(b, j)
    decreases |b.envelopes| - i
  {
    if i < |b.envelopes| {
      var e := b.envelopes[i];
      if !e.invalid && e.body.Undecodable? {
        assert Unreadable(b, i);
      } else {
        var next := if !e.invalid && e.body.Endorser?
                    then ApplyActions(state, updates, e.body.actions, Version(b.number, i)) else updates;
        UpdatesUnlessUnreadable(state, b, i + 1, next);
        hide ApplyActions;
        assert forall j :: i <= j && Unreadable(b, j) ==> i + 1 <= j;
      }
    }
  }

  /**
   * A block with the wrong number is refused for that, whatever it holds; one with the right number is refused exactly
   * when an envelope that the peers hold valid cannot be decoded.
   */
  lemma DeliverExactly(l: State, b: Block)
    ensures var (l', code) := Deliver(l, b);
            var expected := b.number % WORD == (l.sequence + 1) % WORD;
            && (code == InvalidBlockNumber <==> !expected)
            && (code == ErrorDecoding <==> expected && exists i :: Unreadable(b, i))
            && (code == Success <==> expected && forall i :: !Unreadable(b, i))
            && (code != Success ==> l' == l)
  {
    UpdatesUnlessUnreadable(l.store, b, 0, map[]);
    hide BlockUpdates;
    assert forall i :: Unreadable(b, i) ==> 0 <= i;
  }

  // ----- the writes of an action -----

  /** All writes of the tracked namespaces are recorded, and the first one of the enclave registry. */
  predicate Recorded(r: NsRwSet, j: int) {
    && 0 <= j < |r.writes|
    && (Tracked(r.ns) || (r.ns == "ercc" && j == 0))
  }

  predicate Puts(r: NsRwSet, k: Key, j: int) {
    Recorded(r, j) && WriteKey(r.ns, r.writes[j].key) == k
  }

  /** The first recorded write of a key: write j of namespace i. */
  ghost predicate FirstPut(sets: seq<NsRwSet>, k: Key, i: int, j: int) {
    && 0 <= i < |sets| && Puts(sets[i], k, j)
    && (forall n :: 0 <= n < j ==> !Puts(sets[i], k, n))
    && (forall m, n :: 0 <= m < i ==> !Puts(sets[m], k, n))
  }

  lemma SetWritesExactly(r: NsRwSet, j: int)
    ensures Recorded(r, j) <==> 0 <= j < |SetWrites(r)|
    ensures Recorded(r, j) ==>
              j < |r.writes| && SetWrites(r)[j] == Write(WriteKey(r.ns, r.writes[j].key), r.writes[j].value)
  {
    hide WriteKey;
  }

  predicate FirstOf(writes: seq<Write>, k: Key, n: int) {
    0 <= n < |writes| && writes[n].key == k && forall m :: 0 <= m < n ==> writes[m].key != k
  }

  lemma {:induction false} InsertAllExactly(updates: Store, writes: seq<Write>, version: Version, k: Key)
    ensures var r := InsertAll(updates, writes, version);
            && (k in updates ==> k in r && r[k] == updates[k])
            && (k !in updates && k in r ==> exists n :: FirstOf(writes, k, n))
            && (k !in updates ==> forall n :: FirstOf(writes, k, n) ==>
                  k in r && r[k] == Entry(writes[n].value, version))
    decreases |writes|
  {
    if writes != [] {
      var w := writes[0];
      var next := if w.key in updates then updates else updates[w.key := Entry(w.value, version)];
      InsertAllExactly(next, writes[1..], version, k);
      if w.key == k {
        assert FirstOf(writes, k, 0);
      } else {
        FirstOfTail(writes, k);
      }
    }
  }

  lemma FirstOfTail(writes: seq<Write>, k: Key)
    requires writes != [] && writes[0].key != k
    ensures forall n :: FirstOf(writes[1..], k, n) ==> FirstOf(writes, k, n + 1)
    ensures forall n :: FirstOf(writes, k, n) ==> n > 0 && FirstOf(writes[1..], k, n - 1)
  {
    assert forall n :: 1 <= n < |writes| ==> writes[n] == writes[1..][n - 1];
  }

  lemma {:induction false} InsertAllAppend(updates: Store, xs: seq<Write>, ys: seq<Write>, version: Version)
    ensures InsertAll(updates, xs + ys, version) == InsertAll(InsertAll(updates, xs, version), ys, version)
    decreases |xs|
  {
    if xs == [] {
      assert xs + ys == ys;
    } else {
      var w := xs[0];
      assert (xs + ys)[1..] == xs[1..] + ys;
      InsertAllAppend(if w.key in updates then updates else updates[w.key := Entry(w.value, version)],
                      xs[1..], ys, version);
    }
  }

  lemma FirstOfSet(r: NsRwSet, k: Key, n: int)
    ensures FirstOf(SetWrites(r), k, n) <==> Puts(r, k, n) && forall m :: 0 <= m < n ==> !Puts(r, k, m)
    ensures FirstOf(SetWrites(r), k, n) ==>
              0 <= n < |SetWrites(r)| && n < |r.writes| && SetWrites(r)[n].value == r.writes[n].value
  {
    hide WriteKey, SetWrites, Recorded;
    forall m: int ensures Recorded(r, m) <==> 0 <= m < |SetWrites(r)|
      ensures Puts(r, k, m) <==> 0 <= m < |SetWrites(r)| && SetWrites(r)[m].key == k
    {
      SetWritesExactly(r, m);
    }
    SetWritesExactly(r, n);
  }

  lemma {:induction false} SomeFirst(r: NsRwSet, k: Key, n: int)
    requires Puts(r, k, n)
    ensures exists m :: FirstOf(SetWrites(r), k, m)
    decreases n
  {
    FirstOfSet(r, k, n);
    hide FirstOf, WriteKey, SetWrites;
    if m :| 0 <= m < n && Puts(r, k, m) {
      SomeFirst(r, k, m);
    } else {
      assert FirstOf(SetWrites(r), k, n);
    }
  }

  /** The first write of a key is in the first namespace, or that one does not write the key. */
  lemma FirstPutSplits(sets: seq<NsRwSet>, k: Key)
    requires sets != []
    ensures forall n :: FirstOf(SetWrites(sets[0]), k, n) ==>
              FirstPut(sets, k, 0, n) && SetWrites(sets[0])[n].value == sets[0].writes[n].value
    ensures forall i, j :: FirstPut(sets, k, i, j) ==>
              if i == 0 then FirstOf(SetWrites(sets[0]), k, j)
              else (forall n :: !FirstOf(SetWrites(sets[0]), k, n)) && FirstPut(sets[1..], k, i - 1, j)
    ensures (forall n :: !FirstOf(SetWrites(sets[0]), k, n)) ==>
              forall i, j :: FirstPut(sets[1..], k, i, j) ==> FirstPut(sets, k, i + 1, j)
  {
    hide FirstOf, SetWrites, Puts;
    var first, rest := sets[0], sets[1..];
    assert forall m :: 0 < m < |sets| ==> sets[m] == rest[m - 1];
    forall n: int
      ensures FirstOf(SetWrites(first), k, n) <==> Puts(first, k, n) && forall m :: 0 <= m < n ==> !Puts(first, k, m)
      ensures FirstOf(SetWrites(first), k, n) ==>
                0 <= n < |SetWrites(first)| && n < |first.writes| && SetWrites(first)[n].value == first.writes[n].value
    {
      FirstOfSet(first, k, n);
    }
    forall n | Puts(first, k, n) ensures exists m :: FirstOf(SetWrites(first), k, m) {
      SomeFirst(first, k, n);
    }
  }

  /** What a list of write sets leaves under a key. */
  lemma {:induction false} PutsExactly(updates: Store, sets: seq<NsRwSet>, version: Version, k: Key)
    ensures var r := InsertAll(updates, WritesOf(sets), version);
            && (k in updates ==> k in r && r[k] == updates[k])
            && (k !in updates && k in r ==> exists i, j :: FirstPut(sets, k, i, j))
            && (k !in updates ==> forall i, j :: FirstPut(sets, k, i, j) ==>
                  k in r && r[k] == Entry(sets[i].writes[j].value, version))
    decreases |sets|
  {
    if sets != [] {
      var first, rest := sets[0], sets[1..];
      var mid := InsertAll(updates, SetWrites(first), version);
      FirstPutSplits(sets, k);
      InsertAllAppend(updates, SetWrites(first), WritesOf(rest), version);
      InsertAllExactly(updates, SetWrites(first), version, k);
      PutsExactly(mid, rest, version, k);
      hide FirstPut, FirstOf, InsertAll, SetWrites;
    }
  }

  /**
   * What an action leaves under a key: what the block has put there already, else the first value that the action
   * writes there, in the action's version; nothing else. With a stale read it leaves everything as it was.
   */
  lemma ActionExactly(state: Store, updates: Store, a: Action, version: Version, k: Key)
    requires a.results.Some?
    ensures var sets, after := a.results.value, ApplyAction(state, updates, a, version);
            if exists i :: 0 <= i < |sets| && StaleSet(state, updates, sets[i]) then after == updates
            else
              && (k in updates ==> k in after && after[k] == updates[k])
              && (k !in updates && k in after ==> exists i, j :: FirstPut(sets, k, i, j))
              && (k !in updates ==> forall i, j :: FirstPut(sets, k, i, j) ==>
                    k in after && after[k] == Entry(sets[i].writes[j].value, version))
  {
    StaleReadsConflict(state, updates, a.results.value);
    PutsExactly(updates, a.results.value, version, k);
    hide Conflicted, StaleSet, WritesOf, ReadsOf, InsertAll, FirstPut;
  }

  // ----- the updates of a block -----

  ghost predicate Records(a: Action, k: Key, value: string) {
    a.results.Some? &&
    exists i, j :: FirstPut(a.results.value, k, i, j) && a.results.value[i].writes[j].value == value
  }

  ghost predicate SomeRecords(actions: seq<Action>, k: Key, value: string) {
    exists n :: 0 <= n < |actions| && Records(actions[n], k, value)
  }

  /** An entry is one that the transaction in envelope i writes, in the version of that place in the block. */
  ghost predicate ComesFrom(b: Block, i: int, k: Key, e: Entry) {
    && 0 <= i < |b.envelopes| && !b.envelopes[i].invalid && b.envelopes[i].body.Endorser?
    && e.version == Version(b.number, i)
    && SomeRecords(b.envelopes[i].body.actions, k, e.value)
  }

  lemma ActionOrigin(state: Store, updates: Store, a: Action, version: Version, k: Key)
    ensures var r := ApplyAction(state, updates, a, version);
            && (k in updates ==> k in r && r[k] == updates[k])
            && (k !in updates && k in r ==> r[k].version == version && Records(a, k, r[k].value))
  {
    if a.results.Some? {
      ActionExactly(state, updates, a, version, k);
      hide ApplyAction, FirstPut, StaleSet;
    }
  }

  lemma {:induction false} ActionsOrigin(state: Store, updates: Store, actions: seq<Action>, version: Version, k: Key)
    ensures var r := ApplyActions(state, updates, actions, version);
            && (k in updates ==> k in r && r[k] == updates[k])
            && (k !in updates && k in r ==> r[k].version == version && SomeRecords(actions, k, r[k].value))
    decreases |actions|
  {
    if actions != [] {
      ActionOrigin(state, updates, actions[0], version, k);
      var next, rest := ApplyAction(state, updates, actions[0], version), actions[1..];
      ActionsOrigin(state, next, rest, version, k);
      hide ApplyAction, Records;
      assert forall n :: 0 <= n < |rest| ==> rest[n] == actions[n + 1];
    }
  }

  lemma {:induction false} BlockOrigin(state: Store, b: Block, i: nat, updates: Store, k: Key)
    requires i <= |b.envelopes| && BlockUpdates(state, b, i, updates).Some?
    ensures var r := BlockUpdates(state, b, i, updates).value;
            && (k in updates ==> k in r && r[k] == updates[k])
            && (k !in updates && k in r ==> exists j :: ComesFrom(b, j, k, r[k]))
    decreases |b.envelopes| - i
  {
    if i < |b.envelopes| {
      var e := b.envelopes[i];
      if !e.invalid && e.body.Endorser? {
        var next := ApplyActions(state, updates, e.body.actions, Version(b.number, i));
        ActionsOrigin(state, updates, e.body.actions, Version(b.number, i), k);
        hide ApplyActions, SomeRecords;
        if k !in updates && k in next {
          assert ComesFrom(b, i, k, next[k]);
        }
        BlockOrigin(state, b, i + 1, next, k);
      } else {
        BlockOrigin(state, b, i + 1, updates, k);
      }
    }
  }

  /**
   * After an accepted block every key holds what it held before, or a value that a transaction of the block writes
   * there and that the peers hold valid, in the version of the transaction's place; no key is lost.
   */
  lemma DeliveredEntries(l: State, b: Block, k: Key)
    requires Deliver(l, b).1 == Success
    ensures var l' := Deliver(l, b).0;
            && (k in l.store ==> k in l'.store)
            && (k in l'.store ==>
                  || (k in l.store && l'.store[k] == l.store[k])
                  || exists i :: ComesFrom(b, i, k, l'.store[k]))
  {
    BlockOrigin(l.store, b, 0, map[], k);
    hide BlockUpdates, ComesFrom;
  }
}
