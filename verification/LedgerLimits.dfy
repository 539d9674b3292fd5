/**
 * Exact conditions of the ledger: when keeping the first write of a key agrees with replaying the accepted writes, and
 * which reads are checked under the key that writes go to.
 */
module LedgerLimits {
  import opened Basics
  import opened ByteOrder
  import opened Ledger
  import opened LedgerRuns
  import opened Serializability

  /** Keep the first entry of a key. */
  function FirstWins(items: seq<Item<Entry>>): map<Key, Entry> {
    if items == [] then map[] else FirstWins(items[1..])[items[0].key := items[0].value]
  }

  /** Keep the last entry of a key. */
  function LastWins(items: seq<Item<Entry>>): map<Key, Entry> {
    if items == [] then map[]
    else
      var n := |items| - 1;
      LastWins(items[..n])[items[n].key := items[n].value]
  }

  lemma {:induction false} FirstWinsAt(items: seq<Item<Entry>>, i: nat)
    requires i < |items| && forall j :: 0 <= j < i ==> items[j].key != items[i].key
    ensures items[i].key in FirstWins(items) && FirstWins(items)[items[i].key] == items[i].value
  {
    if i > 0 {
      FirstWinsAt(items[1..], i - 1);
    }
  }

  lemma {:induction false} LastWinsAt(items: seq<Item<Entry>>, i: nat)
    requires i < |items| && forall j :: i < j < |items| ==> items[j].key != items[i].key
    ensures items[i].key in LastWins(items) && LastWins(items)[items[i].key] == items[i].value
  {
    var n := |items| - 1;
    if i < n {
      LastWinsAt(items[..n], i);
    }
  }

  lemma {:induction false} WinsKeys(items: seq<Item<Entry>>)
    ensures forall k :: k in FirstWins(items) <==> HasKey(items, k)
    ensures forall k :: k in LastWins(items) <==> HasKey(items, k)
    decreases |items|
  {
    if items != [] {
      var n := |items| - 1;
      WinsKeys(items[1..]);
      WinsKeys(items[..n]);
      forall k ensures HasKey(items, k) <==> k == items[0].key || HasKey(items[1..], k)
        ensures HasKey(items, k) <==> k == items[n].key || HasKey(items[..n], k)
      {
        if i :| 0 <= i < |items| && items[i].key == k {
          assert i > 0 ==> items[1..][i - 1].key == k;
          assert i < n ==> items[..n][i].key == k;
        }
        assert forall i :: 0 <= i < n ==> items[1..][i] == items[i + 1] && items[..n][i] == items[i];
      }
    }
  }

  predicate IsFirst(items: seq<Item<Entry>>, i: nat) {
    i < |items| && forall j :: 0 <= j < i ==> items[j].key != items[i].key
  }

  predicate IsLast(items: seq<Item<Entry>>, i: nat) {
    i < |items| && forall j :: i < j < |items| ==> items[j].key != items[i].key
  }

  /** The first and the last entry of every key are the same. */
  ghost predicate FirstEntriesAreLast(items: seq<Item<Entry>>) {
    forall i: nat, j: nat :: IsFirst(items, i) && IsLast(items, j) && items[i].key == items[j].key ==>
      items[i].value == items[j].value
  }

  lemma FirstOccurrence(items: seq<Item<Entry>>, k: Key) returns (i: nat)
    requires HasKey(items, k)
    ensures i < |items| && items[i].key == k && forall j :: 0 <= j < i ==> items[j].key != k
  {
    i := 0;
    while items[i].key != k
      invariant i < |items| && forall j :: 0 <= j < i ==> items[j].key != k
      decreases |items| - i
    {
      var m :| 0 <= m < |items| && items[m].key == k;
      i := i + 1;
    }
  }

  lemma LastOccurrence(items: seq<Item<Entry>>, k: Key) returns (i: nat)
    requires HasKey(items, k)
    ensures i < |items| && items[i].key == k && forall j :: i < j < |items| ==> items[j].key != k
  {
    i := |items| - 1;
    while items[i].key != k
      invariant i < |items| && forall j :: i < j < |items| ==> items[j].key != k
      decreases i
    {
      var m :| 0 <= m < |items| && items[m].key == k;
      i := i - 1;
    }
  }

  /** Keeping the first entries and keeping the last entries agree exactly when the two are equal for every key. */
  lemma FirstAgainstLast(items: seq<Item<Entry>>)
    ensures FirstWins(items) == LastWins(items) <==> FirstEntriesAreLast(items)
  {
    hide FirstWins, LastWins;
    WinsKeys(items);
    forall i: nat, j: nat | IsFirst(items, i) && IsLast(items, j) && items[i].key == items[j].key
      ensures FirstWins(items) == LastWins(items) ==> items[i].value == items[j].value
    {
      FirstWinsAt(items, i);
      LastWinsAt(items, j);
    }
    if FirstEntriesAreLast(items) {
      forall k | k in FirstWins(items) ensures FirstWins(items)[k] == LastWins(items)[k] {
        var i := FirstOccurrence(items, k);
        var j := LastOccurrence(items, k);
        assert IsFirst(items, i) && IsLast(items, j);
        FirstWinsAt(items, i);
        LastWinsAt(items, j);
      }
      assert FirstWins(items).Keys == LastWins(items).Keys;
    }
  }

  /** The recorded writes of an action, stamped with its version. */
  function Stamp(writes: seq<Write>, version: Version): seq<Item<Entry>> {
    seq(|writes|, i requires 0 <= i < |writes| => Item(writes[i].key, Entry(writes[i].value, version)))
  }

  function Stamped(runs: seq<Run>, chosen: seq<nat>, number: nat): seq<Item<Entry>>
    requires Chosen(runs, chosen, 0)
    decreases |chosen|
  {
    if chosen == [] then []
    else Stamp(runs[chosen[0]].e.writeSet, Version(number, runs[chosen[0]].tx)) + Stamped(runs, chosen[1..], number)
  }

  /** Replay the recorded writes of the chosen actions one after the other. */
  function Replay(s: Store, runs: seq<Run>, chosen: seq<nat>, number: nat): Store
    requires Chosen(runs, chosen, 0)
    decreases |chosen|
  {
    if chosen == [] then s
    else Replay(AssignAll(s, runs[chosen[0]].e.writeSet, Version(number, runs[chosen[0]].tx)), runs, chosen[1..],
                number)
  }

  lemma {:induction false} FirstWinsAppend(xs: seq<Item<Entry>>, ys: seq<Item<Entry>>)
    ensures FirstWins(xs + ys) == FirstWins(ys) + FirstWins(xs)
  {
    if xs == [] {
      assert xs + ys == ys;
    } else {
      assert (xs + ys)[1..] == xs[1..] + ys;
      FirstWinsAppend(xs[1..], ys);
    }
  }

  lemma {:induction false} LastWinsAppend(xs: seq<Item<Entry>>, ys: seq<Item<Entry>>)
    ensures LastWins(xs + ys) == LastWins(xs) + LastWins(ys)
    decreases |ys|
  {
    if ys == [] {
      assert xs + ys == xs;
    } else {
      var n := |ys| - 1;
      assert (xs + ys)[..|xs| + n] == xs + ys[..n];
      LastWinsAppend(xs, ys[..n]);
    }
  }

  lemma {:induction false} InsertAllIsFirstWins(updates: Store, writes: seq<Write>, version: Version)
    ensures InsertAll(updates, writes, version) == FirstWins(Stamp(writes, version)) + updates
    decreases |writes|
  {
    if writes != [] {
      var w := writes[0];
      assert Stamp(writes, version)[1..] == Stamp(writes[1..], version);
      var next := if w.key in updates then updates else updates[w.key := Entry(w.value, version)];
      InsertAllIsFirstWins(next, writes[1..], version);
    }
  }

  lemma {:induction false} AssignAllIsLastWins(s: Store, writes: seq<Write>, version: Version)
    ensures AssignAll(s, writes, version) == s + LastWins(Stamp(writes, version))
    decreases |writes|
  {
    if writes == [] {
      assert s + map[] == s;
    } else {
      var w := writes[0];
      var first := [Item(w.key, Entry(w.value, version))];
      assert Stamp(writes, version) == first + Stamp(writes[1..], version);
      AssignAllIsLastWins(s[w.key := Entry(w.value, version)], writes[1..], version);
      LastWinsAppend(first, Stamp(writes[1..], version));
      assert LastWins(first) == LastWins(first[..0])[w.key := Entry(w.value, version)];
    }
  }

  lemma OverlayAssociates(x: Store, y: Store, z: Store)
    ensures (x + y) + z == x + (y + z)
  {
  }

  lemma {:induction false} UpdatesAreFirstWins(state: Store, updates: Store, runs: seq<Run>, number: nat, i: nat)
    requires i <= |runs|
    ensures var chosen := Survivors(state, updates, runs, number, i);
            && Chosen(runs, chosen, 0)
            && Updates(state, updates, runs, number, i) == FirstWins(Stamped(runs, chosen, number)) + updates
    decreases |runs| - i
  {
    hide Conflicted, InsertAll, Stamp;
    SurvivorsInRange(state, updates, runs, number, i);
    if i == |runs| {
    } else if Conflicted(state, updates, runs[i].e.readSet) {
      UpdatesAreFirstWins(state, updates, runs, number, i + 1);
    } else {
      var writes, version := runs[i].e.writeSet, Version(number, runs[i].tx);
      var next := InsertAll(updates, writes, version);
      InsertAllIsFirstWins(updates, writes, version);
      UpdatesAreFirstWins(state, next, runs, number, i + 1);
      var chosen := Survivors(state, updates, runs, number, i);
      var rest := Survivors(state, next, runs, number, i + 1);
      assert chosen[1..] == rest;
      var first, later := Stamp(writes, version), Stamped(runs, rest, number);
      FirstWinsAppend(first, later);
      OverlayAssociates(FirstWins(later), FirstWins(first), updates);
    }
  }

  lemma {:induction false} ReplayIsLastWins(s: Store, runs: seq<Run>, chosen: seq<nat>, number: nat)
    requires Chosen(runs, chosen, 0)
    ensures Replay(s, runs, chosen, number) == s + LastWins(Stamped(runs, chosen, number))
    decreases |chosen|
  {
    if chosen == [] {
      assert s + map[] == s;
    } else {
      var writes, version := runs[chosen[0]].e.writeSet, Version(number, runs[chosen[0]].tx);
      hide LastWins, AssignAll, Stamp;
      AssignAllIsLastWins(s, writes, version);
      ReplayIsLastWins(AssignAll(s, writes, version), runs, chosen[1..], number);
      var first, later := Stamp(writes, version), Stamped(runs, chosen[1..], number);
      LastWinsAppend(first, later);
      OverlayAssociates(s, LastWins(first), LastWins(later));
    }
  }

  /**
   * The ledger keeps the first write of a key in a block, a serial replay the last. For any actions, the two agree
   * exactly when the first and the last accepted write of every key are the same entry.
   */
  lemma FirstWinsExactly(state: Store, runs: seq<Run>, number: nat)
    ensures var chosen := Survivors(state, map[], runs, number, 0);
            && Chosen(runs, chosen, 0)
            && (state + Updates(state, map[], runs, number, 0) == Replay(state, runs, chosen, number)
                <==> FirstEntriesAreLast(Stamped(runs, chosen, number)))
  {
    hide Survivors, Updates, Replay, Stamped, FirstWins, LastWins, FirstEntriesAreLast;
    var chosen := Survivors(state, map[], runs, number, 0);
    UpdatesAreFirstWins(state, map[], runs, number, 0);
    ReplayIsLastWins(state, runs, chosen, number);
    var items := Stamped(runs, chosen, number);
    FirstAgainstLast(items);
    WinsKeys(items);
    hide Chosen;
    SameOverlay(state, FirstWins(items), LastWins(items));
    assert FirstWins(items) + map[] == FirstWins(items);
  }

  lemma SameOverlay(state: Store, x: Store, y: Store)
    requires x.Keys == y.Keys
    ensures state + x == state + y <==> x == y
  {
    if state + x == state + y {
      forall k | k in x ensures x[k] == y[k] {
        assert (state + x)[k] == x[k] && (state + y)[k] == y[k];
      }
    }
  }

  // ----- two writers of one key -----

  function WriterBlock(): Block {
    Block(1, [Envelope(false, Endorser([Action(Some([NsRwSet("lscc", [], [], [KvWrite("k", "1")])]))])),
              Envelope(false, Endorser([Action(Some([NsRwSet("lscc", [], [], [KvWrite("k", "2")])]))]))])
  }

  ghost function Writers(): seq<Run> {
    [Run(0, Endorsed([], [Write("lscc.k", "1")], map[], values => [Write("lscc.k", "1")])),
     Run(1, Endorsed([], [Write("lscc.k", "2")], map[], values => [Write("lscc.k", "2")]))]
  }

  lemma WriterSets(value: string)
    ensures var sets := [NsRwSet("lscc", [], [], [KvWrite("k", value)])];
            ReadsOf(sets) == [] && WritesOf(sets) == [Write("lscc.k", value)]
  {
    var r := NsRwSet("lscc", [], [], [KvWrite("k", value)]);
    assert CString("k") == "k" && !IsComposite("k");
    assert PlainKey("lscc", "k") == "lscc.k";
    assert "lscc"[0] != "ercc"[0];
    assert WriteKey("lscc", "k") == "lscc.k";
    assert SetWrites(r) == [Write("lscc.k", value)];
    assert SetReads(r) == [];
    assert [r][1..] == [];
    assert WritesOf([r]) == SetWrites(r) + WritesOf([]) && ReadsOf([r]) == SetReads(r) + ReadsOf([]);
  }

  lemma WritersCarried()
    ensures Carries(WriterBlock(), Writers())
  {
    hide ReadsOf, WritesOf;
    var b := WriterBlock();
    WriterSets("1");
    WriterSets("2");
    assert StepsFrom(b, 2) == [];
    assert StepsOf([], 0) == [] && StepsOf([], 1) == [];
    assert StepsFrom(b, 1) == [Step(1, [NsRwSet("lscc", [], [], [KvWrite("k", "2")])])];
    assert StepsFrom(b, 0) == [Step(0, [NsRwSet("lscc", [], [], [KvWrite("k", "1")])])] + StepsFrom(b, 1);
  }

  lemma WritersAccepted(updates: Store)
    ensures Survivors(map[], updates, Writers(), 1, 0) == [0, 1]
  {
    hide InsertAll;
    var runs := Writers();
    NoReadsNoConflict(map[], updates);
    var next := InsertAll(updates, runs[0].e.writeSet, Version(1, 0));
    NoReadsNoConflict(map[], next);
    var last := InsertAll(next, runs[1].e.writeSet, Version(1, 1));
    assert Survivors(map[], last, runs, 1, 2) == [];
    assert Survivors(map[], next, runs, 1, 1) == [1];
  }

  /**
   * Two transactions that write one key without reading it are both accepted. The block leaves the value of the first
   * one, running them one after the other that of the second.
   */
  lemma BlindWritersDiffer()
    ensures var b, runs := WriterBlock(), Writers();
            && Carries(b, runs)
            && Survivors(map[], map[], runs, 1, 0) == [0, 1]
            && Chosen(runs, [0, 1], 0)
            && BlockUpdates(map[], b, 0, map[]) == Some(map["lscc.k" := Entry("1", Version(1, 0))])
            && Replay(map[], runs, [0, 1], 1) == map["lscc.k" := Entry("2", Version(1, 1))]
  {
    hide Carries, BlockUpdates, Survivors, Updates, Replay;
    WritersCarried();
    WritersAccepted(map[]);
    BlockIsItsActions(map[], WriterBlock(), Writers());
    FirstWriterStays();
    SecondWriterReplaces();
  }

  const FIRST: Store := map["lscc.k" := Entry("1", Version(1, 0))]

  const SECOND: Store := map["lscc.k" := Entry("2", Version(1, 1))]

  lemma FirstWriterStays()
    ensures Updates(map[], map[], Writers(), 1, 0) == FIRST
  {
    var runs := Writers();
    NoReadsNoConflict(map[], map[]);
    NoReadsNoConflict(map[], FIRST);
    hide Conflicted;
    assert InsertAll(map[], runs[0].e.writeSet, Version(1, 0)) == FIRST;
    assert InsertAll(FIRST, runs[1].e.writeSet, Version(1, 1)) == FIRST;
    hide InsertAll;
    assert Updates(map[], FIRST, runs, 1, 2) == FIRST;
    assert Updates(map[], FIRST, runs, 1, 1) == FIRST;
  }

  lemma SecondWriterReplaces()
    ensures Chosen(Writers(), [0, 1], 0) && Replay(map[], Writers(), [0, 1], 1) == SECOND
  {
    var runs := Writers();
    assert AssignAll(map[], runs[0].e.writeSet, Version(1, 0)) == FIRST;
    assert AssignAll(FIRST, runs[1].e.writeSet, Version(1, 1)) == SECOND;
    hide AssignAll;
    assert [0, 1][1..] == [1] && [1][1..] == [];
    assert Replay(SECOND, runs, [], 1) == SECOND;
    assert Replay(FIRST, runs, [1], 1) == SECOND;
  }

  // ----- point reads of composite keys -----

  /** A point read is checked under the ledger key that writes go to exactly when the key has no components. */
  lemma CompositePointReadsAreUnchecked(ns: string, key: string)
    requires "ecc" <= ns
    ensures PlainKey(ns, key) == WriteKey(ns, key) <==> !IsComposite(key) || Dotted(key[1..]) == []
  {
    if IsComposite(key) {
      assert CString(key) == [];
      assert PlainKey(ns, key) == ns + ".";
      assert |WriteKey(ns, key)| == |ns| + 1 + |Dotted(key[1..])|;
      if Dotted(key[1..]) == [] {
        assert WriteKey(ns, key) == ns + ".";
      }
    }
  }

  /**
   * A point read of a composite key conflicts exactly when the entry under the bare name, and no other, is newer than
   * the version read.
   */
  lemma CompositeReadConflicts(m: Store, ns: string, key: string, version: Version)
    requires IsComposite(key)
    ensures HasVersionConflict(m, Read(PlainKey(ns, key), version)) <==>
            ns + "." in m && Older(version, m[ns + "."].version)
  {
    assert CString(key) == [];
    assert PlainKey(ns, key) == ns + ".";
  }

  /** A composite key read in an old version: refused as part of a range read, accepted as a point read. */
  lemma StaleCompositeReadAccepted()
    ensures var key := "\0a\0";
            var state := map["ecc.a." := Entry("v", Version(2, 0))];
            var old1 := KvRead(key, Version(1, 0));
            && WriteKey("ecc", key) == "ecc.a." && Older(old1.version, state["ecc.a."].version)
            && Conflicted(state, map[], ReadsOf([NsRwSet("ecc", [old1], [], [])]))
            && !Conflicted(state, map[], ReadsOf([NsRwSet("ecc", [], [old1], [])]))
  {
    var key := "\0a\0";
    var state: Store := map["ecc.a." := Entry("v", Version(2, 0))];
    var old1 := KvRead(key, Version(1, 0));
    assert IsComposite(key);
    assert key[1..] == "a\0";
    SpellA();
    assert CompositeKey("ecc", key) == "ecc" + "." + "a." == "ecc.a.";
    var byRange, byKey := NsRwSet("ecc", [old1], [], []), NsRwSet("ecc", [], [old1], []);
    assert SetReads(byRange) == [Read("ecc.a.", Version(1, 0))];
    assert ReadsOf([byRange]) == SetReads(byRange) + ReadsOf([]);
    assert HasVersionConflict(state, ReadsOf([byRange])[0]);
    CompositeReadConflicts(state, "ecc", key, Version(1, 0));
    CompositeReadConflicts(map[], "ecc", key, Version(1, 0));
    assert SetReads(byKey) == [Read(PlainKey("ecc", key), Version(1, 0))];
    assert ReadsOf([byKey]) == SetReads(byKey) + ReadsOf([]);
    assert |"ecc" + "."| < |"ecc.a."|;
  }

  lemma SpellA()
    ensures Dotted("a\0") == "a."
  {
    assert "a\0"[1..] == "\0" && CString("\0") == [];
    assert CString("a\0") == "a";
    assert "a\0"[2..] == [];
    assert Dotted([]) == [];
  }
}
