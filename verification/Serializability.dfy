/** The actions that a block accepts behave as if they were run one at a time, in block order. */
module Serializability {
  import opened Basics
  import opened ByteOrder
  import opened Ledger
  import opened LedgerRuns

  /** A chaincode: what it writes, given the values of the keys that it reads and finds. */
  type Program = map<Key, string> -> seq<Write>

  /** A simulated action: its recorded reads and writes, the state it ran on, and the program that ran. */
  datatype Endorsed = Endorsed(readSet: seq<Read>, writeSet: seq<Write>, snapshot: Store, program: Program)

  /** An action of a block: the position of its transaction, and what was simulated. */
  datatype Run = Run(tx: nat, e: Endorsed)

  function ReadKeys(rs: seq<Read>): set<Key> {
    set i | 0 <= i < |rs| :: rs[i].key
  }

  function VersionAt(s: Store, k: Key): Version {
    if k in s then s[k].version else Version(0, 0)
  }

  function Values(s: Store, keys: set<Key>): map<Key, string> {
    map k | k in keys && k in s :: s[k].value
  }

  /** The read versions are those of the snapshot and the writes are what the program computed from it. */
  ghost predicate Faithful(e: Endorsed) {
    && (forall i :: 0 <= i < |e.readSet| ==> e.readSet[i].version == VersionAt(e.snapshot, e.readSet[i].key))
    && e.writeSet == e.program(Values(e.snapshot, ReadKeys(e.readSet)))
  }

  predicate DistinctWrites(writes: seq<Write>) {
    forall i, j :: 0 <= i < j < |writes| ==> writes[i].key != writes[j].key
  }

  /** Every written key was read, and is written once. */
  predicate WritesAreRead(e: Endorsed) {
    && DistinctWrites(e.writeSet)
    && forall i :: 0 <= i < |e.writeSet| ==> e.writeSet[i].key in ReadKeys(e.readSet)
  }

  // ----- what the ledger does with a list of transactions -----

  /** The actions from i on that survive validation, in order. */
  ghost function Survivors(state: Store, updates: Store, runs: seq<Run>, number: nat, i: nat): seq<nat>
    requires i <= |runs|
    decreases |runs| - i
  {
    if i == |runs| then []
    else if Conflicted(state, updates, runs[i].e.readSet) then Survivors(state, updates, runs, number, i + 1)
    else [i] + Survivors(state, InsertAll(updates, runs[i].e.writeSet, Version(number, runs[i].tx)), runs, number,
                         i + 1)
  }

  ghost function Updates(state: Store, updates: Store, runs: seq<Run>, number: nat, i: nat): Store
    requires i <= |runs|
    decreases |runs| - i
  {
    if i == |runs| then updates
    else if Conflicted(state, updates, runs[i].e.readSet) then Updates(state, updates, runs, number, i + 1)
    else Updates(state, InsertAll(updates, runs[i].e.writeSet, Version(number, runs[i].tx)), runs, number, i + 1)
  }

  // ----- the actions of a block -----

  /** An action with results, and the position of its transaction in the block. */
  datatype Step = Step(tx: nat, sets: seq<NsRwSet>)

  function StepsOf(actions: seq<Action>, tx: nat): seq<Step> {
    if actions == [] then []
    else (if actions[0].results.Some? then [Step(tx, actions[0].results.value)] else []) + StepsOf(actions[1..], tx)
  }

  /** The actions of the envelopes from i on that are not filtered out, transaction after transaction. */
  function StepsFrom(b: Block, i: nat): seq<Step>
    requires i <= |b.envelopes|
    decreases |b.envelopes| - i
  {
    if i == |b.envelopes| then []
    else
      var e := b.envelopes[i];
      (if !e.invalid && e.body.Endorser? then StepsOf(e.body.actions, i) else []) + StepsFrom(b, i + 1)
  }

  predicate Decodable(b: Block) {
    forall i :: 0 <= i < |b.envelopes| ==> b.envelopes[i].invalid || !b.envelopes[i].body.Undecodable?
  }

  /** A block whose actions are these runs, in order; transactions may have any number of actions. */
  ghost predicate Carries(b: Block, runs: seq<Run>) {
    var steps := StepsFrom(b, 0);
    && Decodable(b) && |steps| == |runs|
    && forall p :: 0 <= p < |runs| ==>
         && runs[p].tx == steps[p].tx
         && runs[p].e.readSet == ReadsOf(steps[p].sets)
         && runs[p].e.writeSet == WritesOf(steps[p].sets)
  }

  function ApplyStep(state: Store, updates: Store, step: Step, number: nat): Store {
    if Conflicted(state, updates, ReadsOf(step.sets)) then updates
    else InsertAll(updates, WritesOf(step.sets), Version(number, step.tx))
  }

  function ApplySteps(state: Store, updates: Store, steps: seq<Step>, number: nat): Store
    decreases |steps|
  {
    if steps == [] then updates else ApplySteps(state, ApplyStep(state, updates, steps[0], number), steps[1..], number)
  }

  lemma {:induction false} ApplyStepsAppend(state: Store, updates: Store, xs: seq<Step>, ys: seq<Step>, number: nat)
    ensures ApplySteps(state, updates, xs + ys, number) ==
            ApplySteps(state, ApplySteps(state, updates, xs, number), ys, number)
    decreases |xs|
  {
    hide ApplyStep;
    if xs == [] {
      assert xs + ys == ys;
    } else {
      assert (xs + ys)[1..] == xs[1..] + ys;
      ApplyStepsAppend(state, ApplyStep(state, updates, xs[0], number), xs[1..], ys, number);
    }
  }

  lemma {:induction false} ActionsAreSteps(state: Store, updates: Store, actions: seq<Action>, number: nat, tx: nat)
    ensures ApplyActions(state, updates, actions, Version(number, tx)) ==
            ApplySteps(state, updates, StepsOf(actions, tx), number)
    decreases |actions|
  {
    hide Conflicted, InsertAll;
    if actions != [] {
      var a := actions[0];
      var next := ApplyAction(state, updates, a, Version(number, tx));
      ActionsAreSteps(state, next, actions[1..], number, tx);
      if a.results.Some? {
        assert StepsOf(actions, tx)[1..] == StepsOf(actions[1..], tx);
      } else {
        assert StepsOf(actions, tx) == StepsOf(actions[1..], tx);
      }
    }
  }

  lemma {:induction false} BlockIsItsSteps(state: Store, b: Block, i: nat, updates: Store)
    requires i <= |b.envelopes| && Decodable(b)
    ensures BlockUpdates(state, b, i, updates) == Some(ApplySteps(state, updates, StepsFrom(b, i), b.number))
    decreases |b.envelopes| - i
  {
    hide ApplySteps, ApplyActions, StepsOf;
    if i == |b.envelopes| {
      assert ApplySteps(state, updates, [], b.number) == updates by { NoSteps(state, updates, b.number); }
    } else {
      var e := b.envelopes[i];
      if !e.invalid && e.body.Endorser? {
        ActionsAreSteps(state, updates, e.body.actions, b.number, i);
        ApplyStepsAppend(state, updates, StepsOf(e.body.actions, i), StepsFrom(b, i + 1), b.number);
        BlockIsItsSteps(state, b, i + 1, ApplyActions(state, updates, e.body.actions, Version(b.number, i)));
      } else {
        assert StepsFrom(b, i) == StepsFrom(b, i + 1);
        BlockIsItsSteps(state, b, i + 1, updates);
      }
    }
  }

  lemma NoSteps(state: Store, updates: Store, number: nat)
    ensures ApplySteps(state, updates, [], number) == updates
  {
  }

  lemma {:induction false} StepsAreRuns(state: Store, updates: Store, b: Block, runs: seq<Run>, p: nat)
    requires Carries(b, runs) && p <= |runs|
    ensures ApplySteps(state, updates, StepsFrom(b, 0)[p..], b.number) == Updates(state, updates, runs, b.number, p)
    decreases |runs| - p
  {
    hide StepsFrom, Conflicted, InsertAll;
    var steps := StepsFrom(b, 0);
    if p < |runs| {
      assert steps[p..][1..] == steps[p + 1..];
      StepsAreRuns(state, ApplyStep(state, updates, steps[p], b.number), b, runs, p + 1);
    }
  }

  /** The updates of a block are those of its actions, one after the other. */
  lemma BlockIsItsActions(state: Store, b: Block, runs: seq<Run>)
    requires Carries(b, runs)
    ensures BlockUpdates(state, b, 0, map[]) == Some(Updates(state, map[], runs, b.number, 0))
  {
    hide StepsFrom, BlockUpdates, ApplySteps, Updates;
    BlockIsItsSteps(state, b, 0, map[]);
    StepsAreRuns(state, map[], b, runs, 0);
    assert StepsFrom(b, 0)[0..] == StepsFrom(b, 0);
  }

  // ----- running one at a time -----

  function AssignAll(s: Store, writes: seq<Write>, version: Version): Store
    decreases |writes|
  {
    if writes == [] then s
    else AssignAll(s[writes[0].key := Entry(writes[0].value, version)], writes[1..], version)
  }

  /** Run one program on the current state. */
  ghost function RunOne(s: Store, e: Endorsed, version: Version): Store {
    AssignAll(s, e.program(Values(s, ReadKeys(e.readSet))), version)
  }

  /** Indexes of transactions, from a position of the block on. */
  predicate Chosen(runs: seq<Run>, chosen: seq<nat>, from: nat) {
    forall j :: 0 <= j < |chosen| ==> from <= chosen[j] < |runs|
  }

  /** Run the chosen programs one after the other, each on the state that the previous one left. */
  ghost function RunSerially(s: Store, runs: seq<Run>, chosen: seq<nat>, number: nat): Store
    requires Chosen(runs, chosen, 0)
    decreases |chosen|
  {
    if chosen == [] then s
    else RunSerially(RunOne(s, runs[chosen[0]].e, Version(number, runs[chosen[0]].tx)), runs, chosen[1..], number)
  }

  lemma {:induction false} SurvivorsInRange(state: Store, updates: Store, runs: seq<Run>, number: nat, i: nat)
    requires i <= |runs|
    ensures Chosen(runs, Survivors(state, updates, runs, number, i), i)
    decreases |runs| - i
  {
    if i < |runs| {
      if Conflicted(state, updates, runs[i].e.readSet) {
        SurvivorsInRange(state, updates, runs, number, i + 1);
      } else {
        SurvivorsInRange(state, InsertAll(updates, runs[i].e.writeSet, Version(number, runs[i].tx)), runs, number,
                         i + 1);
      }
    }
  }

  // ----- the argument -----

  /** No stored entry carries the version that a read of an absent key reports. */
  predicate NoZeroVersion(s: Store) {
    forall k :: k in s ==> s[k].version != Version(0, 0)
  }

  /** The transaction was simulated on an earlier state of this ledger. */
  ghost predicate Admissible(e: Endorsed, state: Store) {
    Faithful(e) && WritesAreRead(e) && Precedes(e.snapshot, state)
  }

  predicate Before(s: Store, number: nat) {
    forall k :: k in s ==> s[k].version.block < number
  }

  /** A read that conflicts with nothing sees the value that is still current. */
  lemma UnconflictedReadIsCurrent(state: Store, snapshot: Store, k: Key)
    requires Precedes(snapshot, state) && NoZeroVersion(state)
    requires !HasVersionConflict(state, Read(k, VersionAt(snapshot, k)))
    ensures k in snapshot <==> k in state
    ensures k in snapshot ==> snapshot[k] == state[k]
  {
  }

  /** Any update made earlier in the block conflicts with a read of the same key. */
  lemma EarlierUpdateConflicts(state: Store, updates: Store, snapshot: Store, number: nat, k: Key)
    requires Precedes(snapshot, state) && Before(state, number) && number > 0
    requires AllFrom(updates, number) && k in updates
    ensures HasVersionConflict(updates, Read(k, VersionAt(snapshot, k)))
  {
  }

  lemma SurvivorReads(state: Store, updates: Store, e: Endorsed, number: nat)
    requires Admissible(e, state) && NoZeroVersion(state) && Before(state, number) && number > 0
    requires AllFrom(updates, number) && !Conflicted(state, updates, e.readSet)
    ensures Values(state + updates, ReadKeys(e.readSet)) == Values(e.snapshot, ReadKeys(e.readSet))
    ensures forall i :: 0 <= i < |e.writeSet| ==> e.writeSet[i].key !in updates
  {
    forall k | k in ReadKeys(e.readSet)
      ensures k !in updates
      ensures k in e.snapshot <==> k in state
      ensures k in e.snapshot ==> e.snapshot[k] == state[k]
    {
      var i :| 0 <= i < |e.readSet| && e.readSet[i].key == k;
      var r := Read(k, VersionAt(e.snapshot, k));
      assert e.readSet[i] == r;
      assert !HasVersionConflict(state, r) && !HasVersionConflict(updates, r);
      UnconflictedReadIsCurrent(state, e.snapshot, k);
      if k in updates {
        EarlierUpdateConflicts(state, updates, e.snapshot, number, k);
      }
    }
  }

  /** With new, distinct keys, keeping the first write and keeping the last write are the same. */
  lemma {:induction false} InsertIsAssign(state: Store, updates: Store, writes: seq<Write>, version: Version)
    requires DistinctWrites(writes)
    requires forall i :: 0 <= i < |writes| ==> writes[i].key !in updates
    ensures state + InsertAll(updates, writes, version) == AssignAll(state + updates, writes, version)
    decreases |writes|
  {
    if writes == [] {
    } else {
      var w := writes[0];
      var next := updates[w.key := Entry(w.value, version)];
      assert state + next == (state + updates)[w.key := Entry(w.value, version)];
      assert forall i :: 0 <= i < |writes[1..]| ==> writes[1..][i] == writes[i + 1];
      InsertIsAssign(state, next, writes[1..], version);
    }
  }

  ghost predicate Writes(e: Endorsed, k: Key) {
    exists i :: 0 <= i < |e.writeSet| && e.writeSet[i].key == k
  }

  lemma {:induction false} InsertAllKeys(updates: Store, writes: seq<Write>, version: Version, k: Key)
    ensures k in InsertAll(updates, writes, version) <==>
            k in updates || exists i :: 0 <= i < |writes| && writes[i].key == k
    decreases |writes|
  {
    if writes != [] {
      var w := writes[0];
      var next := if w.key in updates then updates else updates[w.key := Entry(w.value, version)];
      InsertAllKeys(next, writes[1..], version, k);
      assert forall i :: 0 <= i < |writes[1..]| ==> writes[1..][i] == writes[i + 1];
      if i :| 0 <= i < |writes| && writes[i].key == k {
        assert i > 0 ==> writes[1..][i - 1].key == k;
      }
    }
  }

  ghost predicate Setting(state: Store, updates: Store, runs: seq<Run>, number: nat) {
    && number > 0 && NoZeroVersion(state) && Before(state, number) && AllFrom(updates, number)
    && forall j :: 0 <= j < |runs| ==> Admissible(runs[j].e, state)
  }

  lemma NextSetting(state: Store, updates: Store, runs: seq<Run>, number: nat, i: nat)
    requires i < |runs| && Setting(state, updates, runs, number)
    ensures Setting(state, InsertAll(updates, runs[i].e.writeSet, Version(number, runs[i].tx)), runs, number)
    ensures forall k :: k in InsertAll(updates, runs[i].e.writeSet, Version(number, runs[i].tx)) <==>
              k in updates || Writes(runs[i].e, k)
  {
    hide Admissible, NoZeroVersion, Before;
    InsertAllFrom(updates, runs[i].e.writeSet, Version(number, runs[i].tx));
    forall k {
      InsertAllKeys(updates, runs[i].e.writeSet, Version(number, runs[i].tx), k);
    }
  }

  /** One accepted transaction: its recorded writes are what its program computes on the state reached so far. */
  lemma SerialStep(state: Store, updates: Store, e: Endorsed, number: nat, version: Version)
    requires Admissible(e, state) && NoZeroVersion(state) && Before(state, number) && number > 0
    requires AllFrom(updates, number) && !Conflicted(state, updates, e.readSet)
    ensures RunOne(state + updates, e, version) == state + InsertAll(updates, e.writeSet, version)
  {
    SurvivorReads(state, updates, e, number);
    InsertIsAssign(state, updates, e.writeSet, version);
  }

  lemma {:induction false} SerialFrom(state: Store, updates: Store, runs: seq<Run>, number: nat, i: nat)
    requires i <= |runs| && Setting(state, updates, runs, number)
    ensures var chosen := Survivors(state, updates, runs, number, i);
            && Chosen(runs, chosen, 0)
            && state + Updates(state, updates, runs, number, i) == RunSerially(state + updates, runs, chosen, number)
    decreases |runs| - i
  {
    hide Admissible, NoZeroVersion, Before, AllFrom, Conflicted, RunOne, InsertAll, Writes;
    SurvivorsInRange(state, updates, runs, number, i);
    if i < |runs| {
      if Conflicted(state, updates, runs[i].e.readSet) {
        SerialFrom(state, updates, runs, number, i + 1);
      } else {
        var e, version := runs[i].e, Version(number, runs[i].tx);
        SerialStep(state, updates, e, number, version);
        NextSetting(state, updates, runs, number, i);
        var next := InsertAll(updates, e.writeSet, version);
        SerialFrom(state, next, runs, number, i + 1);
        var chosen := Survivors(state, updates, runs, number, i);
        assert chosen[1..] == Survivors(state, next, runs, number, i + 1);
      }
    }
  }

  /** Committing a block equals running the accepted programs one at a time, each on the current state. */
  lemma BlockIsSerializable(l: State, b: Block, runs: seq<Run>)
    requires Carries(b, runs) && InSequence(l, b) && b.number > 0
    requires NoZeroVersion(l.store) && Before(l.store, b.number)
    requires forall j :: 0 <= j < |runs| ==> Admissible(runs[j].e, l.store)
    ensures var chosen := Survivors(l.store, map[], runs, b.number, 0);
            && Chosen(runs, chosen, 0)
            && Deliver(l, b).1 == Success
            && Deliver(l, b).0.store == RunSerially(l.store, runs, chosen, b.number)
  {
    BlockIsItsActions(l.store, b, runs);
    SerialFrom(l.store, map[], runs, b.number, 0);
    assert l.store + map[] == l.store;
  }

  // ----- at most one writer per key -----

  /** A survivor writes no key that the block has already updated. */
  lemma {:induction false} SurvivorsWriteFreshKeys(state: Store, updates: Store, runs: seq<Run>, number: nat,
                                                   i: nat, p: nat, k: Key)
    requires i <= |runs| && Setting(state, updates, runs, number)
    requires p < |Survivors(state, updates, runs, number, i)| && k in updates
    ensures Chosen(runs, Survivors(state, updates, runs, number, i), 0)
    ensures !Writes(runs[Survivors(state, updates, runs, number, i)[p]].e, k)
    decreases |runs| - i
  {
    hide Admissible, NoZeroVersion, Before, AllFrom, Conflicted, InsertAll;
    SurvivorsInRange(state, updates, runs, number, i);
    if Conflicted(state, updates, runs[i].e.readSet) {
      SurvivorsWriteFreshKeys(state, updates, runs, number, i + 1, p, k);
    } else if p == 0 {
      SurvivorReads(state, updates, runs[i].e, number);
    } else {
      var next := InsertAll(updates, runs[i].e.writeSet, Version(number, runs[i].tx));
      NextSetting(state, updates, runs, number, i);
      SurvivorsWriteFreshKeys(state, next, runs, number, i + 1, p - 1, k);
    }
  }

  /** No two accepted transactions of a block write the same key. */
  lemma {:induction false} OneWriterPerKey(state: Store, updates: Store, runs: seq<Run>, number: nat,
                                           i: nat, p: nat, q: nat, k: Key)
    requires i <= |runs| && Setting(state, updates, runs, number)
    requires p < q < |Survivors(state, updates, runs, number, i)|
    ensures var s := Survivors(state, updates, runs, number, i);
            && Chosen(runs, s, 0)
            && !(Writes(runs[s[p]].e, k) && Writes(runs[s[q]].e, k))
    decreases |runs| - i
  {
    hide Setting, Writes;
    SurvivorsInRange(state, updates, runs, number, i);
    if Conflicted(state, updates, runs[i].e.readSet) {
      OneWriterPerKey(state, updates, runs, number, i + 1, p, q, k);
    } else {
      var next := InsertAll(updates, runs[i].e.writeSet, Version(number, runs[i].tx));
      NextSetting(state, updates, runs, number, i);
      if p > 0 {
        OneWriterPerKey(state, next, runs, number, i + 1, p - 1, q - 1, k);
      } else if Writes(runs[i].e, k) {
        SurvivorsWriteFreshKeys(state, next, runs, number, i + 1, q - 1, k);
      }
    }
  }

  // ----- over whole runs -----

  /** The first envelope of block 0 is no chaincode transaction: it configures the channel. */
  predicate OpensWithConfiguration(b: Block) {
    b.number == 0 && b.envelopes != [] ==> b.envelopes[0].invalid || !b.envelopes[0].body.Endorser?
  }

  predicate ConfigurationFirst(blocks: seq<Block>) {
    forall i :: 0 <= i < |blocks| ==> OpensWithConfiguration(blocks[i])
  }

  lemma {:induction false} InsertAllNoZero(updates: Store, writes: seq<Write>, version: Version)
    requires NoZeroVersion(updates) && version != Version(0, 0)
    ensures NoZeroVersion(InsertAll(updates, writes, version))
    decreases |writes|
  {
    if writes != [] {
      var w := writes[0];
      var next := if w.key in updates then updates else updates[w.key := Entry(w.value, version)];
      InsertAllNoZero(next, writes[1..], version);
    }
  }

  lemma {:induction false} ApplyActionsNoZero(state: Store, updates: Store, actions: seq<Action>, version: Version)
    requires NoZeroVersion(updates) && version != Version(0, 0)
    ensures NoZeroVersion(ApplyActions(state, updates, actions, version))
    decreases |actions|
  {
    if actions != [] {
      var a := actions[0];
      if a.results.Some? {
        InsertAllNoZero(updates, WritesOf(a.results.value), version);
      }
      ApplyActionsNoZero(state, ApplyAction(state, updates, a, version), actions[1..], version);
    }
  }

  lemma {:induction false} BlockUpdatesNoZero(state: Store, b: Block, i: nat, updates: Store)
    requires i <= |b.envelopes| && NoZeroVersion(updates) && OpensWithConfiguration(b)
    ensures var r := BlockUpdates(state, b, i, updates); r.Some? ==> NoZeroVersion(r.value)
    decreases |b.envelopes| - i
  {
    if i < |b.envelopes| {
      var e := b.envelopes[i];
      if !e.invalid && e.body.Endorser? {
        ApplyActionsNoZero(state, updates, e.body.actions, Version(b.number, i));
        BlockUpdatesNoZero(state, b, i + 1, ApplyActions(state, updates, e.body.actions, Version(b.number, i)));
      } else {
        BlockUpdatesNoZero(state, b, i + 1, updates);
      }
    }
  }

  /** A ledger that began with a configuration block never stores the version that an absent key reports. */
  lemma {:induction false} RunHasNoZeroVersion(l: State, blocks: seq<Block>)
    requires NoZeroVersion(l.store) && ConfigurationFirst(blocks)
    ensures NoZeroVersion(DeliverAll(l, blocks).store)
    decreases |blocks|
  {
    if blocks != [] {
      BlockUpdatesNoZero(l.store, blocks[0], 0, map[]);
      hide BlockUpdates;
      RunHasNoZeroVersion(Deliver(l, blocks[0]).0, blocks[1..]);
    }
  }

  /**
   * A block delivered after any sequence of deliveries, whose transactions were simulated on states that this
   * ledger went through, has a serial effect.
   */
  lemma RunIsSerializable(blocks: seq<Block>, b: Block, runs: seq<Run>)
    requires Numbered(blocks) && b.number < WORD
    requires 0 < |Accepted(GENESIS, blocks)| < WORD
    requires InSequence(DeliverAll(GENESIS, blocks), b) && Carries(b, runs)
    requires ConfigurationFirst(blocks)
    requires forall j :: 0 <= j < |runs| ==>
               && Faithful(runs[j].e) && WritesAreRead(runs[j].e)
               && exists i :: 0 <= i <= |blocks| && runs[j].e.snapshot == DeliverAll(GENESIS, blocks[..i]).store
    ensures var l := DeliverAll(GENESIS, blocks);
            var chosen := Survivors(l.store, map[], runs, b.number, 0);
            && Chosen(runs, chosen, 0)
            && Deliver(l, b).1 == Success
            && Deliver(l, b).0.store == RunSerially(l.store, runs, chosen, b.number)
  {
    RunHasNoZeroVersion(GENESIS, blocks);
    hide DeliverAll, Accepted, Carries, Faithful, WritesAreRead, Grown, ConfigurationFirst, NoZeroVersion;
    NextBlock(blocks, b);
    forall j | 0 <= j < |runs|
      ensures Precedes(runs[j].e.snapshot, DeliverAll(GENESIS, blocks).store)
    {
      var i :| 0 <= i <= |blocks| && runs[j].e.snapshot == DeliverAll(GENESIS, blocks[..i]).store;
      assert blocks[..|blocks|] == blocks;
      RunIsMonotone(blocks, i, |blocks|);
    }
    hide Precedes;
    BlockIsSerializable(DeliverAll(GENESIS, blocks), b, runs);
  }

  lemma NextBlock(blocks: seq<Block>, b: Block)
    requires Numbered(blocks) && b.number < WORD
    requires 0 < |Accepted(GENESIS, blocks)| < WORD && InSequence(DeliverAll(GENESIS, blocks), b)
    ensures b.number > 0 && Before(DeliverAll(GENESIS, blocks).store, b.number)
  {
    hide DeliverAll, Accepted, Precedes, Numbered;
    StartsGrown();
    RunGrows(GENESIS, 0, blocks);
  }
}
