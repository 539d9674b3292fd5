/**
 * The trusted ledger: blocks are accepted in sequence, their transactions are checked against the versions they
 * read, and the surviving writes are committed (tlcc_enclave/enclave/ledger.cpp and ledger.h).
 */
module Ledger {
  import opened Basics
  import opened ByteOrder

  datatype Version = Version(block: nat, tx: nat)

  datatype Entry = Entry(value: string, version: Version)

  type Store = map<Key, Entry>

  /** 0 when equal, -1 when v1 is older, 1 when v1 is newer. */
  function CmpVersion(v1: Version, v2: Version): int {
    if v1.block > v2.block then 1
    else if v1.block < v2.block then -1
    else if v1.tx > v2.tx then 1
    else if v1.tx < v2.tx then -1
    else 0
  }

  predicate Older(v1: Version, v2: Version) {
    CmpVersion(v1, v2) == -1
  }

  // ----- what a block contains -----

  datatype KvRead = KvRead(key: string, version: Version)

  datatype KvWrite = KvWrite(key: string, value: string)

  datatype NsRwSet = NsRwSet(ns: string, rangeReads: seq<KvRead>, pointReads: seq<KvRead>, writes: seq<KvWrite>)

  /** One action of a transaction with its read and write sets; an action may have no results. */
  datatype Action = Action(results: Option<seq<NsRwSet>>)

  datatype Body = Undecodable | Config | Endorser(actions: seq<Action>) | OtherType

  datatype Envelope = Envelope(invalid: bool, body: Body)

  datatype Block = Block(number: nat, envelopes: seq<Envelope>)

  // ----- keys -----

  /** The components of a composite key, each followed by a dot. */
  function Dotted(s: string): string
    decreases |s|
  {
    var piece := CString(s);
    if piece == [] then []
    else piece + "." + (if |piece| == |s| then [] else Dotted(s[|piece| + 1..]))
  }

  predicate IsComposite(key: string) {
    key != [] && key[0] == '\0'
  }

  function PlainKey(ns: string, key: string): Key {
    ns + "." + CString(key)
  }

  function CompositeKey(ns: string, key: string): Key {
    ns + "." + if key == [] then [] else Dotted(key[1..])
  }

  // ----- reads and writes of an action, by ledger key -----

  datatype Read = Read(key: Key, version: Version)

  datatype Write = Write(key: Key, value: string)

  function SetReads(r: NsRwSet): seq<Read> {
    seq(|r.rangeReads|, i requires 0 <= i < |r.rangeReads| =>
      Read(CompositeKey(r.ns, r.rangeReads[i].key), r.rangeReads[i].version))
    + seq(|r.pointReads|, i requires 0 <= i < |r.pointReads| =>
        Read(PlainKey(r.ns, r.pointReads[i].key), r.pointReads[i].version))
  }

  function WriteKey(ns: string, key: string): Key {
    if "ecc" <= ns && IsComposite(key) then CompositeKey(ns, key) else PlainKey(ns, key)
  }

  /** Only the writes of the system namespaces and of namespaces beginning with ecc are recorded. */
  function SetWrites(r: NsRwSet): seq<Write> {
    var recorded :=
      if r.ns == "ercc" then r.writes[..if |r.writes| == 0 then 0 else 1]
      else if r.ns == "lscc" || "ecc" <= r.ns then r.writes
      else [];
    seq(|recorded|, i requires 0 <= i < |recorded| => Write(WriteKey(r.ns, recorded[i].key), recorded[i].value))
  }

  function ReadsOf(sets: seq<NsRwSet>): seq<Read> {
    if sets == [] then [] else SetReads(sets[0]) + ReadsOf(sets[1..])
  }

  function WritesOf(sets: seq<NsRwSet>): seq<Write> {
    if sets == [] then [] else SetWrites(sets[0]) + WritesOf(sets[1..])
  }

  // ----- validation and updates -----

  predicate HasVersionConflict(store: Store, r: Read) {
    r.key in store && Older(r.version, store[r.key].version)
  }

  predicate Conflicted(state: Store, updates: Store, rs: seq<Read>) {
    exists i :: 0 <= i < |rs| && (HasVersionConflict(state, rs[i]) || HasVersionConflict(updates, rs[i]))
  }

  /** The first write of a key in a block wins. */
  function InsertAll(updates: Store, writes: seq<Write>, version: Version): Store
    decreases |writes|
  {
    if writes == [] then updates
    else
      var w := writes[0];
      InsertAll(if w.key in updates then updates else updates[w.key := Entry(w.value, version)], writes[1..], version)
  }

  function ApplyAction(state: Store, updates: Store, a: Action, version: Version): Store {
    if a.results.None? || Conflicted(state, updates, ReadsOf(a.results.value)) then updates
    else InsertAll(updates, WritesOf(a.results.value), version)
  }

  function ApplyActions(state: Store, updates: Store, actions: seq<Action>, version: Version): Store
    decreases |actions|
  {
    if actions == [] then updates
    else ApplyActions(state, ApplyAction(state, updates, actions[0], version), actions[1..], version)
  }

  /** The updates of the envelopes from i on; nothing when one of them cannot be decoded. */
  function BlockUpdates(state: Store, b: Block, i: nat, updates: Store): Option<Store>
    requires i <= |b.envelopes|
    decreases |b.envelopes| - i
  {
    if i == |b.envelopes| then Some(updates)
    else
      var e := b.envelopes[i];
      if e.invalid then BlockUpdates(state, b, i + 1, updates)
      else
        match e.body
        case Undecodable => None
        case Endorser(actions) =>
          BlockUpdates(state, b, i + 1, ApplyActions(state, updates, actions, Version(b.number, i)))
        case _ => BlockUpdates(state, b, i + 1, updates)
  }

  // ----- delivery -----

  datatype State = State(store: Store, sequence: nat)

  datatype Code = Success | InvalidBlockNumber | ErrorDecoding

  const GENESIS := State(map[], WORD - 1)

  /** Block numbers are compared in 32 bits, while versions keep the whole number. */
  predicate InSequence(l: State, b: Block) {
    b.number % WORD == (l.sequence + 1) % WORD
  }

  function Deliver(l: State, b: Block): (State, Code) {
    if !InSequence(l, b) then (l, InvalidBlockNumber)
    else
      var updates := BlockUpdates(l.store, b, 0, map[]);
      if updates.None? then (l, ErrorDecoding)
      else (State(l.store + updates.value, b.number % WORD), Success)
  }

  function DeliverAll(l: State, blocks: seq<Block>): State
    decreases |blocks|
  {
    if blocks == [] then l else DeliverAll(Deliver(l, blocks[0]).0, blocks[1..])
  }

  /** The blocks of a delivery sequence that are accepted, in order. */
  function Accepted(l: State, blocks: seq<Block>): seq<Block>
    decreases |blocks|
  {
    if blocks == [] then []
    else
      var (next, code) := Deliver(l, blocks[0]);
      (if code == Success then [blocks[0]] else []) + Accepted(next, blocks[1..])
  }
}
