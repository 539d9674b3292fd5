/** Where keys and values stand in the bytes that are hashed, authenticated and signed (ledger.cpp, enclave.cpp). */
module ByteLayouts {
  import opened Basics
  import opened ByteOrder
  import opened Ledger
  import opened Queries
  import opened Endorsement

  lemma Regroup(h: string, v: string, x: string, y: string, z: string, rest: string)
    ensures h + v + (x + y + z + rest) == h + v + x + y + z + rest
  {
  }

  /** Every value stands after its own key, and after all items that come before it in the list. */
  lemma {:induction false} ValueStands(values: seq<Item<string>>, i: nat)
    requires i < |values|
    ensures ValueBytes(values) ==
            ValueBytes(values[..i]) + values[i].key + values[i].value + ValueBytes(values[i + 1..])
  {
    if i == 0 {
      assert [] + values[0].key == values[0].key;
    } else {
      var rest := values[1..];
      ValueStands(rest, i - 1);
      assert values[..i][1..] == rest[..i - 1] && rest[i..] == values[i + 1..];
      assert ValueBytes(values[..i]) == values[0].key + values[0].value + ValueBytes(rest[..i - 1]);
      assert ValueBytes(values) == values[0].key + values[0].value + ValueBytes(rest);
      hide ValueBytes;
      Regroup(values[0].key, values[0].value, ValueBytes(rest[..i - 1]), values[i].key, values[i].value,
              ValueBytes(values[i + 1..]));
    }
  }

  /** The entries of the ledger likewise, with their keys cut down to the part that begins with the first dot. */
  lemma {:induction false} EntryStands(items: seq<Item<Entry>>, i: nat)
    requires i < |items|
    ensures EntryBytes(items) ==
            EntryBytes(items[..i]) + FromDot(items[i].key) + items[i].value.value + EntryBytes(items[i + 1..])
  {
    hide FromDot;
    if i == 0 {
      assert [] + FromDot(items[0].key) == FromDot(items[0].key);
    } else {
      var rest := items[1..];
      EntryStands(rest, i - 1);
      assert items[..i][1..] == rest[..i - 1] && rest[i..] == items[i + 1..];
      assert EntryBytes(items[..i]) == FromDot(items[0].key) + items[0].value.value + EntryBytes(rest[..i - 1]);
      assert EntryBytes(items) == FromDot(items[0].key) + items[0].value.value + EntryBytes(rest);
      hide EntryBytes;
      Regroup(FromDot(items[0].key), items[0].value.value, EntryBytes(rest[..i - 1]), FromDot(items[i].key),
              items[i].value.value, EntryBytes(items[i + 1..]));
    }
  }

  lemma RegroupKeys(h: string, x: string, y: string, rest: string)
    ensures h + (x + y + rest) == h + x + y + rest
  {
  }

  lemma {:induction false} KeyStands(keys: seq<Key>, i: nat)
    requires i < |keys|
    ensures Concat(keys) == Concat(keys[..i]) + keys[i] + Concat(keys[i + 1..])
  {
    if i == 0 {
      assert [] + keys[0] == keys[0];
    } else {
      var rest := keys[1..];
      KeyStands(rest, i - 1);
      assert keys[..i][1..] == rest[..i - 1] && rest[i..] == keys[i + 1..];
      assert Concat(keys[..i]) == keys[0] + Concat(rest[..i - 1]);
      assert Concat(keys) == keys[0] + Concat(rest);
      hide Concat;
      RegroupKeys(keys[0], Concat(rest[..i - 1]), keys[i], Concat(keys[i + 1..]));
    }
  }

  /** The signed bytes hold the header first, then every key read, then every write. */
  lemma SignedLayout(header: string, readKeys: seq<Key>, writes: seq<Item<string>>, i: nat, j: nat)
    requires i < |readKeys| && j < |writes|
    ensures EnclaveBytes(header, readKeys, writes) ==
            header + Concat(readKeys[..i]) + readKeys[i] + Concat(readKeys[i + 1..])
            + ValueBytes(writes[..j]) + writes[j].key + writes[j].value + ValueBytes(writes[j + 1..])
  {
    KeyStands(readKeys, i);
    ValueStands(writes, j);
    hide Concat, ValueBytes;
    var a, b, c := Concat(readKeys[..i]), readKeys[i], Concat(readKeys[i + 1..]);
    var d, e, f, g := ValueBytes(writes[..j]), writes[j].key, writes[j].value, ValueBytes(writes[j + 1..]);
    assert header + (a + b + c) + (d + e + f + g) == header + a + b + c + d + e + f + g;
  }

  /** What is authenticated ends with the digest of the answer, after the queried key. */
  lemma MacLayout(items: seq<Item<Entry>>, values: seq<Item<string>>, ns: string, p: Key, hash: Hash)
    requires FixedSize(hash)
    ensures var mac := LedgerRangeMac(items, ns, p, hash);
            && |mac| >= HASH_SIZE && mac[..|mac| - HASH_SIZE] == FromDot(ns + p)
            && mac[|mac| - HASH_SIZE..] == hash(EntryBytes(WithPrefix(items, ns + p)))
    ensures var mac := ChaincodeRangeMac(values, p, hash);
            && |mac| >= HASH_SIZE && mac[..|mac| - HASH_SIZE] == p
            && mac[|mac| - HASH_SIZE..] == hash(ValueBytes(values))
  {
    hide FromDot, EntryBytes, ValueBytes, WithPrefix;
    assert |hash(EntryBytes(WithPrefix(items, ns + p)))| == HASH_SIZE && |hash(ValueBytes(values))| == HASH_SIZE;
  }

  /** The same for a single key: its digest, or zeros when the ledger does not have it. */
  lemma PointMacLayout(store: Store, ns: string, key: Key, value: string, hash: Hash)
    requires FixedSize(hash)
    ensures var mac, k := LedgerPointMac(store, ns, key, hash), PointKey(ns, key);
            && |mac| >= HASH_SIZE && mac[..|mac| - HASH_SIZE] == AfterDot(k)
            && mac[|mac| - HASH_SIZE..] == if k in store then hash(store[k].value) else seq(HASH_SIZE, _ => '\0')
    ensures var mac := ChaincodePointMac(value, key, hash);
            && |mac| >= HASH_SIZE && mac[..|mac| - HASH_SIZE] == key && mac[|mac| - HASH_SIZE..] == hash(value)
  {
    hide AfterDot, PointKey;
    var k := PointKey(ns, key);
    assert |hash(value)| == HASH_SIZE && (k in store ==> |hash(store[k].value)| == HASH_SIZE);
  }

  lemma TwoItems(x: Item<Entry>, y: Item<Entry>)
    ensures EntryBytes([x, y]) == FromDot(x.key) + x.value.value + (FromDot(y.key) + y.value.value)
  {
    hide FromDot;
    assert [x, y][1..] == [y] && [y][1..] == [];
    assert EntryBytes([y]) == FromDot(y.key) + y.value.value + EntryBytes([]);
  }

  /** Two entries of a chaincode, scanned and hashed in key order. */
  lemma TwoEntries(v: Version, w: Version)
    ensures EntryBytes([Item("ecc.a", Entry("1", v)), Item("ecc.b", Entry("2", w))]) == ".a1.b2"
  {
    FromDotExactly("ecc", ".a");
    FromDotExactly("ecc", ".b");
    assert "ecc" + ".a" == "ecc.a" && "ecc" + ".b" == "ecc.b";
    assert '.' !in "ecc";
    var x, y := Item("ecc.a", Entry("1", v)), Item("ecc.b", Entry("2", w));
    assert FromDot(x.key) == ".a" && FromDot(y.key) == ".b";
    hide FromDot;
    TwoItems(x, y);
    assert ".a" + "1" + (".b" + "2") == ".a1.b2";
  }

  /** Reads of a and b and a write of v to k, after the header. */
  lemma SignedExample()
    ensures EnclaveBytes("h", ["a", "b"], [Item("k", "v")]) == "habkv"
  {
    assert ["a", "b"][1..] == ["b"] && ["b"][1..] == [] && [Item("k", "v")][1..] == [];
    assert Concat(["b"]) == "b" && Concat(["a", "b"]) == "ab";
    assert ValueBytes([Item("k", "v")]) == "kv";
  }
}
