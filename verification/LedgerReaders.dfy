/**
 * One thread feeds blocks to the ledger enclave while any number of threads query it. Every access to the state is made
 * under a spin lock, one small step at a time (tlcc_enclave/enclave/ledger.cpp, tlcc/tlcc.go).
 */
module LedgerReaders {
  import opened Basics
  import opened ByteOrder
  import opened Ledger
  import opened LedgerRuns
  import opened Queries
  import opened TrustedLedger

  datatype Query = Point(key: Key) | Range(prefix: Key)

  datatype Result = Found(value: string) | Absent | Scanned(bytes: string)

  datatype Holder = Free | ByFeeder | ByReader(id: nat)

  /** The feeder; it holds the lock while it checks an envelope and while it commits. */
  datatype Feeder =
    | Idle
    | Parsing(block: Block, i: nat, updates: Store)
    | Checking(block: Block, i: nat, updates: Store)
    | Committing(block: Block, pending: seq<Item<Entry>>)

  /** A reader; it holds the lock while it scans and until it lets its result go. */
  datatype Reader =
    | Called(query: Query, since: nat)
    | Scanning(query: Query, since: nat, at: nat, bytes: string)
    | Finished(query: Query, since: nat, result: Result)
    | Answered(query: Query, since: nat, result: Result)

  /**
   * Shared memory, threads, and a record of the past: the blocks handed in, the committed ones among them, and the
   * contents of the memory at each release of the lock by a commit.
   */
  datatype System = System(items: seq<Item<Entry>>, sequence: nat, lock: Holder, feeder: Feeder,
                           readers: map<nat, Reader>, fed: seq<Block>, blocks: seq<Block>, history: seq<State>)

  const INITIAL := System([], WORD - 1, Free, Idle, map[], [], [], [GENESIS])

  datatype Event =
    | Feed(block: Block) | Decode | FeedLock | Check | CommitLock(pending: seq<Item<Entry>>) | CommitOne | CommitUnlock
    | Call(id: nat, query: Query) | ReadLock(id: nat, start: nat) | Visit(id: nat) | ReadUnlock(id: nat)

  function Contents(items: seq<Item<Entry>>): Store {
    Overlay(map[], items)
  }

  // ----- the steps of the feeder -----

  function FeedStep(s: System, b: Block): System {
    if !s.feeder.Idle? then s
    else if b.number % WORD != (s.sequence + 1) % WORD then s.(fed := s.fed + [b])
    else s.(feeder := Parsing(b, 0, map[]))
  }

  /** Skip an invalid envelope; give up on one that cannot be decoded. */
  function DecodeStep(s: System): System {
    if !s.feeder.Parsing? || s.feeder.i >= |s.feeder.block.envelopes| then s
    else
      var e := s.feeder.block.envelopes[s.feeder.i];
      if e.invalid then s.(feeder := Parsing(s.feeder.block, s.feeder.i + 1, s.feeder.updates))
      else if e.body.Undecodable? then s.(feeder := Idle, fed := s.fed + [s.feeder.block])
      else s
  }

  function FeedLockStep(s: System): System {
    if !s.feeder.Parsing? || s.feeder.i >= |s.feeder.block.envelopes| || !s.lock.Free? then s
    else
      var b, i, updates := s.feeder.block, s.feeder.i, s.feeder.updates;
      if b.envelopes[i].invalid || b.envelopes[i].body.Undecodable? then s
      else s.(lock := ByFeeder, feeder := Checking(b, i, updates))
  }

  function CheckStep(s: System): System {
    if !s.feeder.Checking? || s.feeder.i >= |s.feeder.block.envelopes| then s
    else
      var b, i, updates := s.feeder.block, s.feeder.i, s.feeder.updates;
      var e := b.envelopes[i];
      var next :=
        if e.body.Endorser? then ApplyActions(Contents(s.items), updates, e.body.actions, Version(b.number, i))
        else updates;
      s.(lock := Free, feeder := Parsing(b, i + 1, next))
  }

  /** Begin the commit; the pending assignments are the updates in the order of the map that holds them. */
  ghost function CommitLockStep(s: System, pending: seq<Item<Entry>>): System {
    if s.feeder.Parsing? && s.feeder.i == |s.feeder.block.envelopes| && s.lock.Free?
       && Represents(pending, s.feeder.updates)
    then s.(lock := ByFeeder, sequence := s.feeder.block.number % WORD, feeder := Committing(s.feeder.block, pending))
    else s
  }

  function CommitOneStep(s: System): System {
    if !s.feeder.Committing? || s.feeder.pending == [] then s
    else
      var x := s.feeder.pending[0];
      s.(items := Put(s.items, x.key, x.value), feeder := Committing(s.feeder.block, s.feeder.pending[1..]))
  }

  function CommitUnlockStep(s: System): System {
    if !s.feeder.Committing? || s.feeder.pending != [] then s
    else
      s.(lock := Free, feeder := Idle, fed := s.fed + [s.feeder.block], blocks := s.blocks + [s.feeder.block],
         history := s.history + [State(Contents(s.items), s.sequence)])
  }

  // ----- the steps of a reader -----

  function CallStep(s: System, id: nat, q: Query): System {
    if id in s.readers && !s.readers[id].Answered? then s
    else if s.history == [] then s
    else s.(readers := s.readers[id := Called(q, |s.history| - 1)])
  }

  function Sought(q: Query): Key {
    if q.Point? then q.key else q.prefix
  }

  /** Take the lock and position the iterator at the lower bound of the key. */
  function ReadLockStep(s: System, id: nat, start: nat): System {
    if id in s.readers && s.readers[id].Called? && s.lock.Free?
       && IsLowerBound(s.items, start, Sought(s.readers[id].query))
    then
      var r := s.readers[id];
      s.(lock := ByReader(id), readers := s.readers[id := Scanning(r.query, r.since, start, [])])
    else s
  }

  /** Look at the entry under the iterator. */
  function Advance(r: Reader, items: seq<Item<Entry>>): Reader
    requires r.Scanning?
  {
    var found := r.at < |items|;
    match r.query
    case Point(k) =>
      Finished(r.query, r.since, if found && items[r.at].key == k then Found(items[r.at].value.value) else Absent)
    case Range(p) =>
      if found && p <= items[r.at].key
      then Scanning(r.query, r.since, r.at + 1, r.bytes + FromDot(items[r.at].key) + items[r.at].value.value)
      else Finished(r.query, r.since, Scanned(r.bytes))
  }

  function VisitStep(s: System, id: nat): System {
    if id in s.readers && s.readers[id].Scanning? then s.(readers := s.readers[id := Advance(s.readers[id], s.items)])
    else s
  }

  function ReadUnlockStep(s: System, id: nat): System {
    if id in s.readers && s.readers[id].Finished?
    then
      var r := s.readers[id];
      s.(lock := Free, readers := s.readers[id := Answered(r.query, r.since, r.result)])
    else s
  }

  /** A thread that cannot move waits. */
  ghost function Next(s: System, e: Event): System {
    match e
    case Feed(b) => FeedStep(s, b)
    case Decode => DecodeStep(s)
    case FeedLock => FeedLockStep(s)
    case Check => CheckStep(s)
    case CommitLock(pending) => CommitLockStep(s, pending)
    case CommitOne => CommitOneStep(s)
    case CommitUnlock => CommitUnlockStep(s)
    case Call(id, q) => CallStep(s, id, q)
    case ReadLock(id, start) => ReadLockStep(s, id, start)
    case Visit(id) => VisitStep(s, id)
    case ReadUnlock(id) => ReadUnlockStep(s, id)
  }

  /** Every interleaving of the threads is a sequence of events. */
  ghost function Run(s: System, events: seq<Event>): System
    decreases |events|
  {
    if events == [] then s else Run(Next(s, events[0]), events[1..])
  }

  // ----- the invariant -----

  /** The answer to a query on a state. */
  ghost predicate Answers(store: Store, q: Query, result: Result) {
    match q
    case Point(k) => result == if k in store then Found(store[k].value) else Absent
    case Range(p) => exists items :: Represents(items, store) && result == Scanned(EntryBytes(WithPrefix(items, p)))
  }

  function Latest(history: seq<State>): State
    requires history != []
  {
    history[|history| - 1]
  }

  predicate HoldsLock(f: Feeder) {
    f.Checking? || f.Committing?
  }

  predicate Holds(r: Reader) {
    r.Scanning? || r.Finished?
  }

  /** The lock has one holder, and only its holder is inside. */
  predicate LockInv(lock: Holder, feeder: Feeder, readers: map<nat, Reader>) {
    && (lock.ByFeeder? <==> HoldsLock(feeder))
    && (lock.ByReader? ==> lock.id in readers)
    && (forall id :: id in readers ==> (Holds(readers[id]) <==> lock == ByReader(id)))
  }

  /** Partly read blocks are on their way to their updates; partly committed ones to the next state. */
  ghost predicate FeederInv(feeder: Feeder, items: seq<Item<Entry>>, sequence: nat, l: State) {
    match feeder
    case Idle => true
    case Parsing(b, i, updates) =>
      && i <= |b.envelopes| && InSequence(l, b)
      && BlockUpdates(l.store, b, 0, map[]) == BlockUpdates(l.store, b, i, updates)
    case Checking(b, i, updates) =>
      && i < |b.envelopes| && InSequence(l, b)
      && !b.envelopes[i].invalid && !b.envelopes[i].body.Undecodable?
      && BlockUpdates(l.store, b, 0, map[]) == BlockUpdates(l.store, b, i, updates)
    case Committing(b, pending) =>
      Deliver(l, b) == (State(Overlay(Contents(items), pending), sequence), Success)
  }

  /** Outside a commit the memory is the latest committed state. */
  ghost predicate MemoryInv(committing: bool, items: seq<Item<Entry>>, sequence: nat, l: State) {
    && Represents(items, Contents(items))
    && (!committing ==> State(Contents(items), sequence) == l)
  }

  ghost predicate ReaderInv(r: Reader, items: seq<Item<Entry>>, history: seq<State>)
    requires history != []
  {
    && r.since < |history|
    && match r
       case Called(_, _) => true
       case Scanning(q, _, at, bytes) =>
         at <= |items|
         && (q.Point? ==> IsLowerBound(items, at, q.key))
         && (q.Range? ==> bytes + ScanFrom(items, at, q.prefix) == EntryBytes(WithPrefix(items, q.prefix)))
       case Finished(q, _, result) => Answers(Latest(history).store, q, result)
       case Answered(q, since, result) =>
         exists n :: since <= n < |history| && Answers(history[n].store, q, result)
  }

  ghost predicate ReadersInv(readers: map<nat, Reader>, items: seq<Item<Entry>>, history: seq<State>)
    requires history != []
  {
    forall id :: id in readers ==> ReaderInv(readers[id], items, history)
  }

  /** The record: each committed state is the delivery of the next committed block. */
  predicate Recorded(fed: seq<Block>, blocks: seq<Block>, history: seq<State>) {
    && |history| == |blocks| + 1 && history[0] == GENESIS
    && blocks == Accepted(GENESIS, fed)
    && Latest(history) == DeliverAll(GENESIS, fed)
    && forall n {:trigger blocks[n]} :: 0 <= n < |blocks| ==>
         Deliver(history[n], blocks[n]) == (history[n + 1], Success)
  }

  ghost predicate Inv(s: System) {
    && s.history != [] && Recorded(s.fed, s.blocks, s.history)
    && LockInv(s.lock, s.feeder, s.readers)
    && MemoryInv(s.feeder.Committing?, s.items, s.sequence, Latest(s.history))
    && FeederInv(s.feeder, s.items, s.sequence, Latest(s.history))
    && ReadersInv(s.readers, s.items, s.history)
  }

  // ----- memory -----

  lemma ContentsOf(items: seq<Item<Entry>>, m: Store)
    requires Represents(items, m)
    ensures Contents(items) == m
  {
    OverlayIsUnion(map[], items, m);
    assert map[] + m == m;
  }

  lemma PutContents(items: seq<Item<Entry>>, x: Item<Entry>)
    requires Represents(items, Contents(items))
    ensures Represents(Put(items, x.key, x.value), Contents(items)[x.key := x.value])
    ensures Contents(Put(items, x.key, x.value)) == Contents(items)[x.key := x.value]
  {
    PutRepresents(items, Contents(items), x.key, x.value);
    ContentsOf(Put(items, x.key, x.value), Contents(items)[x.key := x.value]);
  }

  // ----- the feeder keeps the invariant -----

  lemma Settled(s: System, b: Block)
    requires s.history != [] && Recorded(s.fed, s.blocks, s.history) && Deliver(Latest(s.history), b).1 != Success
    ensures Recorded(s.fed + [b], s.blocks, s.history)
  {
    hide Deliver;
    DeliverAllAppend(GENESIS, s.fed, [b]);
    DeliverSequence(Latest(s.history), b);
    DeliverOne(Latest(s.history), b);
    hide Accepted, DeliverAll;
    assert Accepted(GENESIS, s.fed + [b]) == Accepted(GENESIS, s.fed);
  }

  lemma DeliverOne(l: State, b: Block)
    ensures DeliverAll(l, [b]) == Deliver(l, b).0
    ensures Accepted(l, [b]) == if Deliver(l, b).1 == Success then [b] else []
  {
    hide Deliver;
    assert [b][1..] == [];
    assert DeliverAll(Deliver(l, b).0, []) == Deliver(l, b).0;
    assert Accepted(Deliver(l, b).0, []) == [];
  }

  lemma FeedInv(s: System, b: Block)
    requires Inv(s)
    ensures Inv(FeedStep(s, b))
  {
    hide BlockUpdates, ReadersInv, Represents, Recorded;
    if s.feeder.Idle? && !InSequence(Latest(s.history), b) {
      Settled(s, b);
    }
  }

  lemma DecodeInv(s: System)
    requires Inv(s)
    ensures Inv(DecodeStep(s))
  {
    hide ReadersInv, Represents, Recorded;
    if s.feeder.Parsing? && s.feeder.i < |s.feeder.block.envelopes| {
      var b, i := s.feeder.block, s.feeder.i;
      if !b.envelopes[i].invalid && b.envelopes[i].body.Undecodable? {
        assert BlockUpdates(Latest(s.history).store, b, i, s.feeder.updates) == None;
        Settled(s, b);
      }
    }
  }

  lemma FeedLockInv(s: System)
    requires Inv(s)
    ensures Inv(FeedLockStep(s))
  {
    hide ReadersInv, MemoryInv, BlockUpdates, Recorded;
  }

  lemma CheckInv(s: System)
    requires Inv(s)
    ensures Inv(CheckStep(s))
  {
    hide ReadersInv, Represents, Recorded, ApplyActions, Contents;
  }

  lemma CommitLockInv(s: System, pending: seq<Item<Entry>>)
    requires Inv(s)
    ensures Inv(CommitLockStep(s, pending))
  {
    hide ReadersInv, Recorded;
    if s.feeder.Parsing? && s.feeder.i == |s.feeder.block.envelopes| && Represents(pending, s.feeder.updates) {
      OverlayIsUnion(Contents(s.items), pending, s.feeder.updates);
      hide Represents, Overlay, Contents;
      var b := s.feeder.block;
      assert BlockUpdates(Latest(s.history).store, b, |b.envelopes|, s.feeder.updates) == Some(s.feeder.updates);
    }
  }

  lemma UnlockedReader(r: Reader, items: seq<Item<Entry>>, items': seq<Item<Entry>>, history: seq<State>)
    requires history != [] && ReaderInv(r, items, history) && !Holds(r)
    ensures ReaderInv(r, items', history)
  {
  }

  lemma CommitOneInv(s: System)
    requires Inv(s)
    ensures Inv(CommitOneStep(s))
  {
    hide Recorded, Deliver, Represents, ReaderInv;
    if s.feeder.Committing? && s.feeder.pending != [] {
      var x := s.feeder.pending[0];
      PutContents(s.items, x);
      hide Contents;
      var t := CommitOneStep(s);
      assert Overlay(Contents(t.items), t.feeder.pending) == Overlay(Contents(s.items), s.feeder.pending);
      forall id | id in t.readers ensures ReaderInv(t.readers[id], t.items, t.history) {
        UnlockedReader(s.readers[id], s.items, t.items, s.history);
      }
    }
  }

  lemma CommitRecorded(s: System)
    requires Inv(s) && s.feeder.Committing? && s.feeder.pending == []
    ensures var t := CommitUnlockStep(s); Recorded(t.fed, t.blocks, t.history)
  {
    hide ReadersInv, Deliver, Represents, Contents;
    var t := CommitUnlockStep(s);
    var b := s.feeder.block;
    DeliverAllAppend(GENESIS, s.fed, [b]);
    DeliverOne(Latest(s.history), b);
    hide Accepted, DeliverAll;
    assert Overlay(Contents(s.items), s.feeder.pending) == Contents(s.items);
    forall n {:trigger t.blocks[n]} | 0 <= n < |t.blocks|
      ensures Deliver(t.history[n], t.blocks[n]) == (t.history[n + 1], Success)
    {
      if n < |s.blocks| {
        assert t.blocks[n] == s.blocks[n];
      }
    }
  }

  lemma LongerHistory(r: Reader, items: seq<Item<Entry>>, history: seq<State>, l: State)
    requires history != [] && ReaderInv(r, items, history) && !Holds(r)
    ensures ReaderInv(r, items, history + [l])
  {
    hide Answers;
    var longer := history + [l];
    if r.Answered? {
      var n :| r.since <= n < |history| && Answers(history[n].store, r.query, r.result);
      assert longer[n] == history[n];
    }
  }

  lemma CommitUnlockInv(s: System)
    requires Inv(s)
    ensures Inv(CommitUnlockStep(s))
  {
    hide ReaderInv, Represents, Contents, Deliver;
    if s.feeder.Committing? && s.feeder.pending == [] {
      CommitRecorded(s);
      hide Recorded;
      var t := CommitUnlockStep(s);
      forall id | id in t.readers ensures ReaderInv(t.readers[id], t.items, t.history) {
        LongerHistory(s.readers[id], s.items, s.history, State(Contents(s.items), s.sequence));
      }
    }
  }

  // ----- the readers keep the invariant -----

  lemma CallInv(s: System, id: nat, q: Query)
    requires Inv(s)
    ensures Inv(CallStep(s, id, q))
  {
    hide Recorded, MemoryInv, FeederInv, Answers;
  }

  lemma StartInv(r: Reader, items: seq<Item<Entry>>, history: seq<State>, start: nat)
    requires history != [] && r.Called? && ReaderInv(r, items, history)
    requires Ordered(items) && IsLowerBound(items, start, Sought(r.query))
    ensures ReaderInv(Scanning(r.query, r.since, start, []), items, history)
  {
    if r.query.Range? {
      ScanIsFilter(items, start, r.query.prefix);
      assert [] + ScanFrom(items, start, r.query.prefix) == ScanFrom(items, start, r.query.prefix);
    }
  }

  lemma MemoryOrdered(s: System)
    requires Inv(s)
    ensures Ordered(s.items)
  {
  }

  lemma ReadLockInv(s: System, id: nat, start: nat)
    requires Inv(s)
    ensures Inv(ReadLockStep(s, id, start))
  {
    hide Recorded, MemoryInv, FeederInv, ReaderInv, IsLowerBound, Sought;
    if id in s.readers && s.readers[id].Called? && IsLowerBound(s.items, start, Sought(s.readers[id].query)) {
      MemoryOrdered(s);
      StartInv(s.readers[id], s.items, s.history, start);
    }
  }

  lemma AdvancePoint(r: Reader, items: seq<Item<Entry>>, history: seq<State>)
    requires history != [] && r.Scanning? && ReaderInv(r, items, history) && r.query.Point?
    requires Represents(items, Latest(history).store)
    ensures ReaderInv(Advance(r, items), items, history)
  {
    var k := r.query.key;
    LowerBoundFinds(items, r.at, k);
    assert HasKey(items, k) <==> k in Latest(history).store;
  }

  lemma AdvanceRange(r: Reader, items: seq<Item<Entry>>, history: seq<State>)
    requires history != [] && r.Scanning? && ReaderInv(r, items, history) && r.query.Range?
    requires Represents(items, Latest(history).store)
    ensures ReaderInv(Advance(r, items), items, history)
  {
    hide Represents, FromDot, WithPrefix, EntryBytes, IsLowerBound;
    var p := r.query.prefix;
    if r.at < |items| && p <= items[r.at].key {
      var x, rest := items[r.at], ScanFrom(items, r.at + 1, p);
      assert ScanFrom(items, r.at, p) == FromDot(x.key) + x.value.value + rest;
      assert r.bytes + (FromDot(x.key) + x.value.value + rest) == (r.bytes + FromDot(x.key) + x.value.value) + rest;
    } else {
      assert ScanFrom(items, r.at, p) == [];
      assert r.bytes + [] == r.bytes;
    }
  }

  lemma AdvanceInv(r: Reader, items: seq<Item<Entry>>, history: seq<State>)
    requires history != [] && r.Scanning? && ReaderInv(r, items, history)
    requires Represents(items, Latest(history).store)
    ensures Holds(Advance(r, items)) && ReaderInv(Advance(r, items), items, history)
  {
    hide ReaderInv, Represents;
    if r.query.Point? {
      AdvancePoint(r, items, history);
    } else {
      AdvanceRange(r, items, history);
    }
  }

  lemma VisitInv(s: System, id: nat)
    requires Inv(s)
    ensures Inv(VisitStep(s, id))
  {
    hide Recorded, Represents, FeederInv, ReaderInv, Contents, Advance;
    if id in s.readers && s.readers[id].Scanning? {
      AdvanceInv(s.readers[id], s.items, s.history);
    }
  }

  lemma ReadUnlockInv(s: System, id: nat)
    requires Inv(s)
    ensures Inv(ReadUnlockStep(s, id))
  {
    hide Recorded, MemoryInv, FeederInv, Answers;
  }

  lemma NextInv(s: System, e: Event)
    requires Inv(s)
    ensures Inv(Next(s, e))
  {
    hide Inv, FeedStep, DecodeStep, FeedLockStep, CheckStep, CommitLockStep, CommitOneStep, CommitUnlockStep, CallStep,
         ReadLockStep, VisitStep, ReadUnlockStep;
    match e
    case Feed(b) => FeedInv(s, b);
    case Decode => DecodeInv(s);
    case FeedLock => FeedLockInv(s);
    case Check => CheckInv(s);
    case CommitLock(pending) => CommitLockInv(s, pending);
    case CommitOne => CommitOneInv(s);
    case CommitUnlock => CommitUnlockInv(s);
    case Call(id, q) => CallInv(s, id, q);
    case ReadLock(id, start) => ReadLockInv(s, id, start);
    case Visit(id) => VisitInv(s, id);
    case ReadUnlock(id) => ReadUnlockInv(s, id);
  }

  lemma {:induction false} RunInv(s: System, events: seq<Event>)
    requires Inv(s)
    ensures Inv(Run(s, events))
    decreases |events|
  {
    hide Inv, Next;
    if events != [] {
      NextInv(s, events[0]);
      RunInv(Next(s, events[0]), events[1..]);
    }
  }

  lemma InitialInv()
    ensures Inv(INITIAL)
  {
  }

  // ----- what readers see -----

  /** The n-th committed state is the fold of the first n committed blocks. */
  lemma {:induction false} HistoryIsFold(s: System, n: nat)
    requires Recorded(s.fed, s.blocks, s.history) && n < |s.history|
    ensures s.history[n] == DeliverAll(GENESIS, s.blocks[..n])
  {
    hide Deliver, Accepted;
    if n == 0 {
    } else {
      HistoryIsFold(s, n - 1);
      var b := s.blocks[n - 1];
      assert s.blocks[..n] == s.blocks[..n - 1] + [b];
      DeliverAllAppend(GENESIS, s.blocks[..n - 1], [b]);
      DeliverOne(s.history[n - 1], b);
      hide DeliverAll;
    }
  }

  /**
   * In every interleaving, a completed query has the answer of one block-boundary state, and of one that was current
   * at some moment between the call and now; the committed blocks are those that deliveries alone would accept.
   */
  lemma ReadersSeeBlockBoundaries(events: seq<Event>, id: nat)
    ensures var s := Run(INITIAL, events);
            && s.blocks == Accepted(GENESIS, s.fed)
            && (id in s.readers && s.readers[id].Answered? ==>
                  exists n :: s.readers[id].since <= n <= |s.blocks|
                    && Answers(DeliverAll(GENESIS, s.blocks[..n]).store, s.readers[id].query, s.readers[id].result))
  {
    InitialInv();
    RunInv(INITIAL, events);
    hide Run, DeliverAll, Accepted, Deliver, Answers, BlockUpdates, Represents;
    var s := Run(INITIAL, events);
    if id in s.readers && s.readers[id].Answered? {
      var r := s.readers[id];
      assert ReaderInv(r, s.items, s.history);
      var n :| r.since <= n < |s.history| && Answers(s.history[n].store, r.query, r.result);
      HistoryIsFold(s, n);
    }
  }

  /** A query has one answer on a state. */
  lemma AnswerIsUnique(store: Store, q: Query, x: Result, y: Result)
    requires Answers(store, q, x) && Answers(store, q, y)
    ensures x == y
  {
    if q.Range? {
      var xs :| Represents(xs, store) && x == Scanned(EntryBytes(WithPrefix(xs, q.prefix)));
      var ys :| Represents(ys, store) && y == Scanned(EntryBytes(WithPrefix(ys, q.prefix)));
      ListingIsUnique(xs, ys, store);
    }
  }

  lemma ListingIsUnique(xs: seq<Item<Entry>>, ys: seq<Item<Entry>>, m: Store)
    requires Represents(xs, m) && Represents(ys, m)
    ensures xs == ys
  {
    forall x ensures x in xs <==> x in ys {
      if x in xs {
        Transfer(xs, ys, m, x);
      }
      if x in ys {
        Transfer(ys, xs, m, x);
      }
    }
    OrderedUnique(xs, ys);
  }

  lemma Transfer(xs: seq<Item<Entry>>, ys: seq<Item<Entry>>, m: Store, x: Item<Entry>)
    requires Represents(xs, m) && Represents(ys, m) && x in xs
    ensures x in ys
  {
    var i :| 0 <= i < |xs| && xs[i] == x;
    assert HasKey(ys, x.key);
    var j :| 0 <= j < |ys| && ys[j].key == x.key;
    assert ys[j] == x;
  }
}
