/**
 * The peer's state of a chaincode beside the ledger enclave's: when a range read returns exactly what the ledger
 * enclave scans (ecc/enclave/enclave_stub.go, tlcc_enclave/enclave/ledger.cpp).
 */
module PeerState {
  import opened Basics
  import opened ByteOrder
  import opened Ledger
  import opened CompositeKeys
  import opened Queries

  /** Values by the peer's own keys. */
  type Peer = map<Key, string>

  /** Composite keys have components without dots, none of them empty. */
  ghost predicate TidyKey(fabric: Key) {
    if IsComposite(fabric) then
      exists pieces: seq<string> :: fabric == Rejoin(pieces) && [] !in pieces &&
        forall i :: 0 <= i < |pieces| ==> '\0' !in pieces[i] && '.' !in pieces[i]
    else '\0' !in fabric
  }

  ghost predicate Tidy(peer: Peer) {
    forall f :: f in peer ==> TidyKey(f)
  }

  /** The ledger holds the peer's values under its own spelling of the keys, and nothing else under the name. */
  ghost predicate Mirrors(store: Store, ns: string, peer: Peer) {
    && (forall f :: f in peer ==> WriteKey(ns, f) in store && store[WriteKey(ns, f)].value == peer[f])
    && (forall k :: k in store && ns + "." <= k ==> exists f :: f in peer && WriteKey(ns, f) == k)
  }

  /** The keys that the peer finds for a partial composite key. */
  predicate Matches(peer: Peer, p: Key, f: Key) {
    f in peer && IsComposite(f) && Replace(p, '.', '\0') <= f
  }

  /** The value comes from a key that the peer finds. */
  ghost predicate HasSource(peer: Peer, p: Key, x: Item<string>) {
    exists f :: Matches(peer, p, f) && ToFpc(f) == x.key && peer[f] == x.value
  }

  /** The values of those keys, by the enclave's spelling, in an ordered map. */
  ghost predicate PeerAnswer(values: seq<Item<string>>, peer: Peer, p: Key) {
    && Ordered(values)
    && (forall i :: 0 <= i < |values| ==> HasSource(peer, p, values[i]))
    && (forall f :: Matches(peer, p, f) ==> HasKey(values, ToFpc(f)))
  }

  /** A plain key whose ledger key falls under the query although no composite key has that spelling. */
  predicate Intrudes(peer: Peer, p: Key, f: Key) {
    && f in peer && !IsComposite(f) && p <= "." + f
    && forall g :: g in peer && IsComposite(g) ==> ToFpc(g) != "." + f
  }

  // ----- keys -----

  lemma {:induction false} NoDotsInside(pieces: seq<string>)
    requires forall i :: 0 <= i < |pieces| ==> '.' !in pieces[i]
    ensures '.' !in Terminated(pieces)
  {
    if pieces != [] {
      NoDotsInside(pieces[1..]);
    }
  }

  /** The ledger key of a tidy key: the name, and the enclave's spelling or a dot and the plain key. */
  lemma TidyLedgerKey(ns: string, f: Key)
    requires TidyKey(f) && "ecc" <= ns
    ensures WriteKey(ns, f) == ns + if IsComposite(f) then ToFpc(f) else "." + f
    ensures IsComposite(f) ==> '.' !in f
  {
    if IsComposite(f) {
      var pieces: seq<string> :| f == Rejoin(pieces) && [] !in pieces &&
        forall i :: 0 <= i < |pieces| ==> '\0' !in pieces[i] && '.' !in pieces[i];
      LedgerKeyOfComposite(ns, pieces);
      NoDotsInside(pieces);
      hide Rejoin;
      assert '.' !in f by { FirstIsNul(pieces); }
    } else {
      assert ns + "." + f == ns + ("." + f);
    }
  }

  lemma FirstIsNul(pieces: seq<string>)
    requires '.' !in Terminated(pieces)
    ensures '.' !in Rejoin(pieces)
  {
  }

  /** For keys without dots, having the prefix in one spelling is having it in the other. */
  lemma PrefixSpelling(p: Key, f: Key)
    requires '\0' !in p && '.' !in f
    ensures Replace(p, '.', '\0') <= f <==> p <= ToFpc(f)
  {
    var q := Replace(p, '.', '\0');
    var g := ToFpc(f);
    if |p| <= |f| {
      if q <= f {
        forall i | 0 <= i < |p| ensures p[i] == g[i] {
          assert q[i] == f[i];
        }
        assert g[..|p|] == p;
      }
      if p <= g {
        forall i | 0 <= i < |p| ensures q[i] == f[i] {
          assert p[i] == g[i];
        }
        assert f[..|p|] == q;
      }
    }
  }

  // ----- the answer -----

  /** The peer's key behind a value that it has answered. */
  lemma SourceOf(values: seq<Item<string>>, peer: Peer, p: Key, i: nat) returns (f: Key)
    requires PeerAnswer(values, peer, p) && i < |values|
    ensures Matches(peer, p, f) && ToFpc(f) == values[i].key && peer[f] == values[i].value
  {
    var x := values[i];
    assert HasSource(peer, p, x);
    f :| Matches(peer, p, f) && ToFpc(f) == x.key && peer[f] == x.value;
  }

  lemma AnswerEntry(values: seq<Item<string>>, store: Store, ns: string, peer: Peer, p: Key, i: nat)
    requires Tidy(peer) && Mirrors(store, ns, peer) && PeerAnswer(values, peer, p) && i < |values|
    requires "ecc" <= ns && '\0' !in p
    ensures p <= values[i].key
    ensures ns + values[i].key in store && store[ns + values[i].key].value == values[i].value
  {
    hide Ordered, WriteKey, TidyKey;
    var f := SourceOf(values, peer, p, i);
    hide ToFpc;
    assert Matches(peer, p, f) && ToFpc(f) == values[i].key && peer[f] == values[i].value;
    TidyLedgerKey(ns, f);
    PrefixSpelling(p, f);
  }

  lemma LedgerEntry(values: seq<Item<string>>, store: Store, ns: string, peer: Peer, p: Key, k: Key)
    requires Tidy(peer) && Mirrors(store, ns, peer) && PeerAnswer(values, peer, p)
    requires "ecc" <= ns && '\0' !in p && StartsWithDot(p) && ns + k in store && p <= k
    requires forall f :: !Intrudes(peer, p, f)
    ensures HasKey(values, k)
  {
    hide Ordered, ToFpc, WriteKey, TidyKey, HasKey;
    assert ns + "." <= ns + k by { DotFollows(ns, k); }
    var f :| f in peer && WriteKey(ns, f) == ns + k;
    TidyLedgerKey(ns, f);
    SameTail(ns, if IsComposite(f) then ToFpc(f) else "." + f, k);
    if IsComposite(f) {
      PrefixSpelling(p, f);
      assert Matches(peer, p, f);
    } else {
      assert !Intrudes(peer, p, f);
      var g :| g in peer && IsComposite(g) && ToFpc(g) == "." + f;
      TidyLedgerKey(ns, g);
      PrefixSpelling(p, g);
      assert Matches(peer, p, g);
    }
  }

  predicate StartsWithDot(p: Key) {
    p != [] && p[0] == '.'
  }

  lemma DotFollows(ns: string, k: Key)
    requires StartsWithDot(k)
    ensures ns + "." <= ns + k
  {
  }

  lemma SameTail(ns: string, x: Key, y: Key)
    requires ns + x == ns + y
    ensures x == y
  {
    assert x == (ns + x)[|ns|..] && y == (ns + y)[|ns|..];
  }

  /** The peer's answer is what the ledger enclave scans exactly when no plain key intrudes. */
  lemma PeerAnswerExactly(values: seq<Item<string>>, store: Store, ns: string, peer: Peer, p: Key)
    requires Tidy(peer) && Mirrors(store, ns, peer) && PeerAnswer(values, peer, p)
    requires "ecc" <= ns && '\0' !in p && StartsWithDot(p)
    ensures IsAnswer(values, store, ns, p) <==> forall f :: !Intrudes(peer, p, f)
  {
    hide ToFpc, WriteKey, TidyKey, HasKey;
    if forall f :: !Intrudes(peer, p, f) {
      forall i | 0 <= i < |values|
        ensures p <= values[i].key && ns + values[i].key in store
        ensures store[ns + values[i].key].value == values[i].value
      {
        AnswerEntry(values, store, ns, peer, p, i);
      }
      forall k | ns + k in store && p <= k ensures HasKey(values, k) {
        LedgerEntry(values, store, ns, peer, p, k);
      }
    } else {
      var f :| Intrudes(peer, p, f);
      TidyLedgerKey(ns, f);
      if HasKey(values, "." + f) {
        NoSuchAnswer(values, peer, p, f);
      }
    }
  }

  lemma NoSuchAnswer(values: seq<Item<string>>, peer: Peer, p: Key, f: Key)
    requires PeerAnswer(values, peer, p) && Intrudes(peer, p, f)
    ensures !HasKey(values, "." + f)
  {
    forall i | 0 <= i < |values| ensures values[i].key != "." + f {
      var g := SourceOf(values, peer, p, i);
    }
    hide Ordered, ToFpc;
  }

  /**
   * So for the peer's own answer, without intruders, both enclaves authenticate the same bytes iff the name has no dot.
   */
  lemma PeerRangeMacsAgree(items: seq<Item<Entry>>, store: Store, values: seq<Item<string>>, ns: string, peer: Peer,
                           p: Key, hash: Hash)
    requires Represents(items, store) && Tidy(peer) && Mirrors(store, ns, peer) && PeerAnswer(values, peer, p)
    requires "ecc" <= ns && '\0' !in p && StartsWithDot(p) && FixedSize(hash) && forall f :: !Intrudes(peer, p, f)
    ensures LedgerRangeMac(items, ns, p, hash) == ChaincodeRangeMac(values, p, hash) <==> '.' !in ns
  {
    PeerAnswerExactly(values, store, ns, peer, p);
    RangeMacsAgreeExactly(items, store, values, ns, p, hash);
  }

  /** The plain key a.b is scanned for the query .a. but never returned by the peer. */
  lemma PlainKeyIntrudes()
    ensures Intrudes(map["a.b" := "v"], ".a.", "a.b")
  {
    assert "." + "a.b" == ".a.b" && ".a." <= ".a.b";
  }
}
