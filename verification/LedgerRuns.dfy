/** What holds over every sequence of delivered blocks, with gaps and repeats. */
module LedgerRuns {
  import opened Basics
  import opened ByteOrder
  import opened Ledger

  // ----- the state is the fold of the accepted blocks -----

  /** Delivering everything is delivering the accepted blocks alone. */
  lemma {:induction false} OnlyAcceptedMatter(l: State, blocks: seq<Block>)
    ensures DeliverAll(l, blocks) == DeliverAll(l, Accepted(l, blocks))
    ensures Accepted(l, Accepted(l, blocks)) == Accepted(l, blocks)
    decreases |blocks|
  {
    if blocks != [] {
      var (next, code) := Deliver(l, blocks[0]);
      OnlyAcceptedMatter(next, blocks[1..]);
      if code == Success {
        var accepted := [blocks[0]] + Accepted(next, blocks[1..]);
        assert accepted[1..] == Accepted(next, blocks[1..]);
      } else {
        assert Accepted(l, blocks) == Accepted(next, blocks[1..]);
      }
    }
  }

  lemma WordAdd(x: nat, y: nat)
    ensures (x % WORD + y) % WORD == (x + y) % WORD
  {
  }

  lemma DeliverSequence(l: State, b: Block)
    ensures Deliver(l, b).1 == Success ==>
              Deliver(l, b).0.sequence == b.number % WORD == (l.sequence + 1) % WORD
    ensures Deliver(l, b).1 != Success ==> Deliver(l, b).0 == l
  {
    hide BlockUpdates;
  }

  /** Accepted blocks are numbered consecutively, in 32-bit arithmetic. */
  lemma {:induction false} AcceptedInSequence(l: State, blocks: seq<Block>, i: nat)
    requires i < |Accepted(l, blocks)|
    ensures Accepted(l, blocks)[i].number % WORD == (l.sequence + 1 + i) % WORD
    decreases |blocks|
  {
    DeliverSequence(l, blocks[0]);
    hide Deliver;
    var (next, code) := Deliver(l, blocks[0]);
    if code == Success {
      if i > 0 {
        AcceptedInSequence(next, blocks[1..], i - 1);
        WordAdd(l.sequence + 1, i);
      }
    } else {
      AcceptedInSequence(next, blocks[1..], i);
    }
  }

  lemma {:induction false} SequenceCounts(l: State, blocks: seq<Block>)
    requires l.sequence < WORD
    ensures DeliverAll(l, blocks).sequence == (l.sequence + |Accepted(l, blocks)|) % WORD
    decreases |blocks|
  {
    if blocks != [] {
      DeliverSequence(l, blocks[0]);
      hide Deliver;
      var (next, code) := Deliver(l, blocks[0]);
      SequenceCounts(next, blocks[1..]);
      WordAdd(l.sequence + 1, |Accepted(next, blocks[1..])|);
    }
  }

  // ----- truncated block numbers -----

  predicate Numbered(blocks: seq<Block>) {
    forall i :: 0 <= i < |blocks| ==> blocks[i].number < WORD
  }

  /** From the start, the first 2^32 accepted blocks are exactly 0, 1, 2, ... when the numbers fit 32 bits. */
  lemma AcceptedAreConsecutive(blocks: seq<Block>, i: nat)
    requires i < |Accepted(GENESIS, blocks)| && i < WORD
    ensures Accepted(GENESIS, blocks)[i].number == i <==> Accepted(GENESIS, blocks)[i].number < WORD
  {
    AcceptedInSequence(GENESIS, blocks, i);
  }

  /** A block numbered 2^32 passes as block 0 and leaves a version newer than the sequence number. */
  lemma TruncatedNumberIsAccepted()
    ensures var action := Action(Some([NsRwSet("lscc", [], [], [KvWrite("k", "v")])]));
            var b := Block(WORD, [Envelope(false, Endorser([action]))]);
            var (l, code) := Deliver(GENESIS, b);
            && code == Success && l.sequence == 0
            && "lscc.k" in l.store && l.store["lscc.k"].version.block > l.sequence
  {
    var set1 := NsRwSet("lscc", [], [], [KvWrite("k", "v")]);
    var action := Action(Some([set1]));
    var b := Block(WORD, [Envelope(false, Endorser([action]))]);
    assert CString("k") == "k" && !IsComposite("k");
    assert PlainKey("lscc", "k") == "lscc.k";
    assert "lscc"[0] != "ercc"[0];
    assert WriteKey("lscc", "k") == "lscc.k";
    assert SetWrites(set1) == [Write("lscc.k", "v")];
    assert WritesOf([set1]) == SetWrites(set1) + WritesOf([]);
    assert WritesOf([set1]) == [Write("lscc.k", "v")];
    assert SetReads(set1) == [];
    assert ReadsOf([set1]) == SetReads(set1) + ReadsOf([]) == [];
    var e := Entry("v", Version(WORD, 0));
    assert InsertAll(map[], [Write("lscc.k", "v")], Version(WORD, 0)) == map["lscc.k" := e];
    assert ApplyAction(map[], map[], action, Version(WORD, 0)) == map["lscc.k" := e];
    assert ApplyActions(map[], map[], [action], Version(WORD, 0)) == map["lscc.k" := e];
    assert BlockUpdates(map[], b, 1, map["lscc.k" := e]) == Some(map["lscc.k" := e]);
    assert BlockUpdates(map[], b, 0, map[]) == Some(map["lscc.k" := e]);
  }

  // ----- versions -----

  predicate AllFrom(updates: Store, number: nat) {
    forall k :: k in updates ==> updates[k].version.block == number
  }

  lemma {:induction false} InsertAllFrom(updates: Store, writes: seq<Write>, version: Version)
    requires AllFrom(updates, version.block)
    ensures AllFrom(InsertAll(updates, writes, version), version.block)
    decreases |writes|
  {
    if writes != [] {
      var w := writes[0];
      var next := if w.key in updates then updates else updates[w.key := Entry(w.value, version)];
      InsertAllFrom(next, writes[1..], version);
    }
  }

  lemma {:induction false} ApplyActionsFrom(state: Store, updates: Store, actions: seq<Action>, version: Version)
    requires AllFrom(updates, version.block)
    ensures AllFrom(ApplyActions(state, updates, actions, version), version.block)
    decreases |actions|
  {
    if actions != [] {
      var a := actions[0];
      if a.results.Some? {
        InsertAllFrom(updates, WritesOf(a.results.value), version);
      }
      ApplyActionsFrom(state, ApplyAction(state, updates, a, version), actions[1..], version);
    }
  }

  /** Every update of a block carries the block's number. */
  lemma {:induction false} BlockUpdatesFrom(state: Store, b: Block, i: nat, updates: Store)
    requires i <= |b.envelopes| && AllFrom(updates, b.number)
    ensures var r := BlockUpdates(state, b, i, updates); r.Some? ==> AllFrom(r.value, b.number)
    decreases |b.envelopes| - i
  {
    if i < |b.envelopes| {
      var e := b.envelopes[i];
      if !e.invalid && e.body.Endorser? {
        ApplyActionsFrom(state, updates, e.body.actions, Version(b.number, i));
        BlockUpdatesFrom(state, b, i + 1, ApplyActions(state, updates, e.body.actions, Version(b.number, i)));
      } else {
        BlockUpdatesFrom(state, b, i + 1, updates);
      }
    }
  }

  /** n blocks have been accepted, and every stored version comes from one of them. */
  predicate Grown(l: State, n: nat) {
    && n <= WORD
    && l.sequence == (WORD - 1 + n) % WORD
    && forall k :: k in l.store ==> l.store[k].version.block < n
  }

  /** An entry of an earlier state is still there later, or has been replaced by a newer version. */
  predicate Precedes(older: Store, newer: Store) {
    forall k :: k in older ==> k in newer && (newer[k] == older[k] || Older(older[k].version, newer[k].version))
  }

  lemma DeliverGrows(l: State, b: Block, n: nat)
    requires Grown(l, n) && b.number < WORD
    ensures var (l', code) := Deliver(l, b);
            && (code != Success ==> l' == l)
            && (code == Success && n < WORD ==> b.number == n && Grown(l', n + 1) && l'.sequence == n)
            && (n < WORD ==> Precedes(l.store, l'.store))
  {
    BlockUpdatesFrom(l.store, b, 0, map[]);
    hide BlockUpdates;
  }

  lemma PrecedesTransitive(s1: Store, s2: Store, s3: Store)
    requires Precedes(s1, s2) && Precedes(s2, s3)
    ensures Precedes(s1, s3)
  {
  }

  /**
   * After any deliveries of fewer than 2^32 accepted blocks: versions lie below the number of accepted blocks,
   * that is, none is newer than the sequence number, and each key's version only ever grew.
   */
  lemma {:induction false} RunGrows(l: State, n: nat, blocks: seq<Block>)
    requires Grown(l, n) && Numbered(blocks)
    requires n + |Accepted(l, blocks)| <= WORD
    ensures Grown(DeliverAll(l, blocks), n + |Accepted(l, blocks)|)
    ensures Precedes(l.store, DeliverAll(l, blocks).store)
    decreases |blocks|
  {
    if blocks != [] {
      var (next, code) := Deliver(l, blocks[0]);
      assert Numbered(blocks[1..]);
      if code == Success {
        DeliverGrows(l, blocks[0], n);
        RunGrows(next, n + 1, blocks[1..]);
        PrecedesTransitive(l.store, next.store, DeliverAll(next, blocks[1..]).store);
      } else {
        assert next == l && Accepted(l, blocks) == Accepted(next, blocks[1..]);
        RunGrows(next, n, blocks[1..]);
      }
    }
  }

  lemma {:induction false} DeliverAllAppend(l: State, xs: seq<Block>, ys: seq<Block>)
    ensures DeliverAll(l, xs + ys) == DeliverAll(DeliverAll(l, xs), ys)
    ensures Accepted(l, xs + ys) == Accepted(l, xs) + Accepted(DeliverAll(l, xs), ys)
    decreases |xs|
  {
    if xs == [] {
      assert xs + ys == ys;
    } else {
      assert (xs + ys)[1..] == xs[1..] + ys;
      DeliverAllAppend(Deliver(l, xs[0]).0, xs[1..], ys);
    }
  }

  lemma StartsGrown()
    ensures Grown(GENESIS, 0)
  {
  }

  /** Every state of a run precedes every later one, and no stored version is newer than the sequence number. */
  lemma RunIsMonotone(blocks: seq<Block>, i: nat, j: nat)
    requires i <= j <= |blocks| && Numbered(blocks)
    requires |Accepted(GENESIS, blocks)| <= WORD
    ensures var earlier, later := DeliverAll(GENESIS, blocks[..i]), DeliverAll(GENESIS, blocks[..j]);
            && Precedes(earlier.store, later.store)
            && (forall k :: k in later.store ==> later.store[k].version.block <= later.sequence)
  {
    hide DeliverAll, Accepted;
    assert blocks[..j] == blocks[..i] + blocks[i..j];
    assert blocks == blocks[..j] + blocks[j..];
    DeliverAllAppend(GENESIS, blocks[..j], blocks[j..]);
    DeliverAllAppend(GENESIS, blocks[..i], blocks[i..j]);
    var n := |Accepted(GENESIS, blocks[..i])|;
    StartsGrown();
    RunGrows(GENESIS, 0, blocks[..i]);
    RunGrows(DeliverAll(GENESIS, blocks[..i]), n, blocks[i..j]);
  }

  // ----- validity of a transaction, read by read -----

  /** A key was read in a version older than the one that is stored or about to be stored. */
  predicate Stale(state: Store, updates: Store, key: Key, version: Version) {
    || (key in state && Older(version, state[key].version))
    || (key in updates && Older(version, updates[key].version))
  }

  /** Some read of one namespace, by range or by key, is stale. */
  predicate StaleSet(state: Store, updates: Store, r: NsRwSet) {
    || (exists j :: 0 <= j < |r.rangeReads| &&
          Stale(state, updates, CompositeKey(r.ns, r.rangeReads[j].key), r.rangeReads[j].version))
    || (exists j :: 0 <= j < |r.pointReads| &&
          Stale(state, updates, PlainKey(r.ns, r.pointReads[j].key), r.pointReads[j].version))
  }

  lemma StaleSetConflicts(state: Store, updates: Store, r: NsRwSet)
    ensures Conflicted(state, updates, SetReads(r)) <==> StaleSet(state, updates, r)
  {
    hide CompositeKey, PlainKey, Older;
    var rs, n := SetReads(r), |r.rangeReads|;
    if Conflicted(state, updates, rs) {
      var i :| 0 <= i < |rs| && (HasVersionConflict(state, rs[i]) || HasVersionConflict(updates, rs[i]));
      if i < n {
        assert Stale(state, updates, CompositeKey(r.ns, r.rangeReads[i].key), r.rangeReads[i].version);
      } else {
        assert Stale(state, updates, PlainKey(r.ns, r.pointReads[i - n].key), r.pointReads[i - n].version);
      }
    }
    if j :| 0 <= j < n && Stale(state, updates, CompositeKey(r.ns, r.rangeReads[j].key), r.rangeReads[j].version) {
      assert rs[j] == Read(CompositeKey(r.ns, r.rangeReads[j].key), r.rangeReads[j].version);
    }
    if j :| 0 <= j < |r.pointReads| &&
            Stale(state, updates, PlainKey(r.ns, r.pointReads[j].key), r.pointReads[j].version)
    {
      assert rs[n + j] == Read(PlainKey(r.ns, r.pointReads[j].key), r.pointReads[j].version);
    }
  }

  lemma ConflictedAppend(state: Store, updates: Store, xs: seq<Read>, ys: seq<Read>)
    ensures Conflicted(state, updates, xs + ys) <==> Conflicted(state, updates, xs) || Conflicted(state, updates, ys)
  {
    if i :| 0 <= i < |xs| && (HasVersionConflict(state, xs[i]) || HasVersionConflict(updates, xs[i])) {
      assert (xs + ys)[i] == xs[i];
    }
    if i :| 0 <= i < |ys| && (HasVersionConflict(state, ys[i]) || HasVersionConflict(updates, ys[i])) {
      assert (xs + ys)[|xs| + i] == ys[i];
    }
  }

  /** The reads of a transaction conflict exactly when some read of some namespace is stale. */
  lemma {:induction false} StaleReadsConflict(state: Store, updates: Store, sets: seq<NsRwSet>)
    ensures Conflicted(state, updates, ReadsOf(sets)) <==>
            exists i :: 0 <= i < |sets| && StaleSet(state, updates, sets[i])
  {
    hide Conflicted, StaleSet, SetReads;
    if sets == [] {
      assert !Conflicted(state, updates, []) by { NoReadsNoConflict(state, updates); }
    } else {
      StaleSetConflicts(state, updates, sets[0]);
      StaleReadsConflict(state, updates, sets[1..]);
      ConflictedAppend(state, updates, SetReads(sets[0]), ReadsOf(sets[1..]));
      assert forall i :: 0 <= i < |sets[1..]| ==> sets[1..][i] == sets[i + 1];
      if i :| 0 <= i < |sets| && StaleSet(state, updates, sets[i]) {
        assert i > 0 ==> StaleSet(state, updates, sets[1..][i - 1]);
      }
      if i :| 0 <= i < |sets[1..]| && StaleSet(state, updates, sets[1..][i]) {
        assert StaleSet(state, updates, sets[i + 1]);
      }
    }
  }

  lemma NoReadsNoConflict(state: Store, updates: Store)
    ensures !Conflicted(state, updates, [])
  {
  }

  /** A namespace whose writes are all recorded. */
  predicate Tracked(ns: string) {
    ns == "lscc" || (ns != "ercc" && "ecc" <= ns)
  }

  lemma {:induction false} WritesOfHas(sets: seq<NsRwSet>, i: nat, j: nat)
    requires i < |sets| && j < |sets[i].writes| && Tracked(sets[i].ns)
    ensures Write(WriteKey(sets[i].ns, sets[i].writes[j].key), sets[i].writes[j].value) in WritesOf(sets)
  {
    hide WriteKey;
    if i == 0 {
      assert SetWrites(sets[0])[j] == Write(WriteKey(sets[0].ns, sets[0].writes[j].key), sets[0].writes[j].value);
    } else {
      WritesOfHas(sets[1..], i - 1, j);
    }
  }

  lemma {:induction false} InsertAllHas(updates: Store, writes: seq<Write>, version: Version, w: Write)
    requires w in writes
    ensures w.key in InsertAll(updates, writes, version)
    decreases |writes|
  {
    var next := if writes[0].key in updates then updates else updates[writes[0].key := Entry(writes[0].value, version)];
    InsertAllKeeps(next, writes[1..], version);
    if w != writes[0] {
      InsertAllHas(next, writes[1..], version, w);
    }
  }

  lemma {:induction false} InsertAllKeeps(updates: Store, writes: seq<Write>, version: Version)
    ensures forall k :: k in updates ==>
              k in InsertAll(updates, writes, version) && InsertAll(updates, writes, version)[k] == updates[k]
    decreases |writes|
  {
    if writes != [] {
      var w := writes[0];
      var next := if w.key in updates then updates else updates[w.key := Entry(w.value, version)];
      InsertAllKeeps(next, writes[1..], version);
    }
  }

  /**
   * A transaction takes effect as a whole or not at all: with a stale read it changes nothing, otherwise every key
   * that it writes in a tracked namespace is among the updates, and no earlier update is lost.
   */
  lemma AllOrNothing(state: Store, updates: Store, a: Action, version: Version)
    requires a.results.Some?
    ensures var sets := a.results.value;
            var after := ApplyAction(state, updates, a, version);
            if exists i :: 0 <= i < |sets| && StaleSet(state, updates, sets[i]) then after == updates
            else
              && (forall k :: k in updates ==> k in after && after[k] == updates[k])
              && (forall i, j :: 0 <= i < |sets| && 0 <= j < |sets[i].writes| && Tracked(sets[i].ns) ==>
                    WriteKey(sets[i].ns, sets[i].writes[j].key) in after)
  {
    hide Conflicted, StaleSet, WriteKey, Tracked, WritesOf, ReadsOf, InsertAll;
    var sets := a.results.value;
    StaleReadsConflict(state, updates, sets);
    if !Conflicted(state, updates, ReadsOf(sets)) {
      var writes := WritesOf(sets);
      InsertAllKeeps(updates, writes, version);
      forall i, j | 0 <= i < |sets| && 0 <= j < |sets[i].writes| && Tracked(sets[i].ns)
        ensures WriteKey(sets[i].ns, sets[i].writes[j].key) in InsertAll(updates, writes, version)
      {
        WritesOfHas(sets, i, j);
        var w := Write(WriteKey(sets[i].ns, sets[i].writes[j].key), sets[i].writes[j].value);
        InsertAllHas(updates, writes, version, w);
      }
    }
  }
}
