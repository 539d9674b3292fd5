/**
 * The two spellings of composite keys: with dots inside the enclave, with NULs on the peer (internal/utils/utils.go).
 */
module CompositeKeys {
  import opened Basics
  import opened ByteOrder

  predicate IsFpcCompositeKey(key: Key) {
    key != [] && key[0] == '.' && key[|key| - 1] == '.'
  }

  function Replace(s: string, from: char, to: char): string {
    seq(|s|, i requires 0 <= i < |s| => if s[i] == from then to else s[i])
  }

  /** TransformToFPCKey. */
  function ToFpc(key: Key): Key {
    Replace(key, '\0', '.')
  }

  /** The position of the first dot, or the length. */
  function DotAt(s: string): (n: nat)
    ensures n <= |s|
    ensures n < |s| ==> s[n] == '.'
    ensures forall i :: 0 <= i < n ==> s[i] != '.'
  {
    if s == [] || s[0] == '.' then 0 else 1 + DotAt(s[1..])
  }

  /** The pieces between dots (strings.Split). */
  function Split(s: string): (pieces: seq<string>)
    ensures pieces != []
    decreases |s|
  {
    var n := DotAt(s);
    if n == |s| then [s] else [s[..n]] + Split(s[n + 1..])
  }

  /** SplitFPCCompositeKey: what is between the first and the last dot. */
  function SplitFpc(key: Key): (r: seq<string>)
    requires IsFpcCompositeKey(key)
  {
    var pieces := Split(key);
    if |pieces| < 2 then [] else pieces[1..|pieces| - 1]
  }

  /** CreateCompositeKey: a NUL, and then every component followed by a NUL. */
  function Rejoin(pieces: seq<string>): Key {
    "\0" + Terminated(pieces)
  }

  function Terminated(pieces: seq<string>): string {
    if pieces == [] then [] else pieces[0] + "\0" + Terminated(pieces[1..])
  }

  /** The key on the peer; there is none for the single dot, whose component list is empty. */
  function ToFabric(key: Key): Option<Key> {
    if !IsFpcCompositeKey(key) then Some(key)
    else if |SplitFpc(key)| == 0 then None
    else Some(Rejoin(SplitFpc(key)))
  }

  // ----- splitting and rejoining -----

  lemma {:induction false} TerminatedAppend(xs: seq<string>, ys: seq<string>)
    ensures Terminated(xs + ys) == Terminated(xs) + Terminated(ys)
  {
    if xs == [] {
      assert xs + ys == ys;
    } else {
      assert (xs + ys)[1..] == xs[1..] + ys;
      TerminatedAppend(xs[1..], ys);
    }
  }

  lemma ReplaceAppend(xs: string, ys: string, from: char, to: char)
    ensures Replace(xs + ys, from, to) == Replace(xs, from, to) + Replace(ys, from, to)
  {
    var l, r := Replace(xs + ys, from, to), Replace(xs, from, to) + Replace(ys, from, to);
    assert forall i :: 0 <= i < |l| ==> l[i] == r[i];
  }

  lemma ReplaceAbsent(s: string, from: char, to: char)
    requires from !in s
    ensures Replace(s, from, to) == s
  {
  }

  /** The pieces of a string, each followed by a NUL, spell the string with NULs for dots, and one more. */
  lemma {:induction false} TerminatedSplit(s: string)
    ensures Terminated(Split(s)) == Replace(s, '.', '\0') + "\0"
    decreases |s|
  {
    var n := DotAt(s);
    if n == |s| {
      ReplaceAbsent(s, '.', '\0');
    } else {
      TerminatedSplit(s[n + 1..]);
      assert s == s[..n] + "." + s[n + 1..];
      ReplaceAbsent(s[..n], '.', '\0');
      ReplaceAppend(s[..n] + ".", s[n + 1..], '.', '\0');
      ReplaceAppend(s[..n], ".", '.', '\0');
      assert Replace(".", '.', '\0') == "\0";
      hide Replace;
      assert Split(s) == [s[..n]] + Split(s[n + 1..]);
    }
  }

  /** A text that ends with a dot has an empty last piece. */
  lemma {:induction false} LastPiece(s: string)
    requires s != [] && s[|s| - 1] == '.'
    ensures var pieces := Split(s); pieces[|pieces| - 1] == []
    decreases |s|
  {
    var n := DotAt(s);
    var rest := s[n + 1..];
    if rest != [] {
      assert rest[|rest| - 1] == s[|s| - 1];
      LastPiece(rest);
    }
    assert Split(s) == [s[..n]] + Split(rest);
  }

  lemma {:induction false} PieceCount(s: string)
    ensures |Split(s)| == 1 <==> '.' !in s
    decreases |s|
  {
    var n := DotAt(s);
  }

  lemma CancelLast(x: string, y: string, c: char)
    requires x + [c] == y + [c]
    ensures x == y
  {
    assert x == (x + [c])[..|x|] && y == (y + [c])[..|y|];
    assert |x| == |y|;
  }

  lemma ComponentsOf(key: Key, rest: string)
    requires IsFpcCompositeKey(key) && key == "." + rest && rest != []
    ensures var pieces := Split(rest);
            && |pieces| > 1 && pieces[|pieces| - 1] == [] && SplitFpc(key) == pieces[..|pieces| - 1]
  {
    var pieces := Split(rest);
    assert DotAt(key) == 0;
    assert key[1..] == rest && key[..0] == [];
    assert Split(key) == [[]] + pieces;
    assert rest[|rest| - 1] == '.';
    PieceCount(rest);
    LastPiece(rest);
    hide Split;
  }

  /** The components of a composite key, each followed by a NUL, spell what follows its first dot. */
  lemma TerminatedComponents(key: Key, rest: string)
    requires IsFpcCompositeKey(key) && key == "." + rest && rest != []
    ensures |SplitFpc(key)| > 0 && Terminated(SplitFpc(key)) == Replace(rest, '.', '\0')
  {
    hide Replace, Split, SplitFpc;
    var pieces := Split(rest);
    ComponentsOf(key, rest);
    var m := |pieces| - 1;
    assert pieces == pieces[..m] + [[]];
    TerminatedAppend(pieces[..m], [[]]);
    assert Terminated([[]]) == "\0";
    TerminatedSplit(rest);
    hide Terminated;
    CancelLast(Terminated(pieces[..m]), Replace(rest, '.', '\0'), '\0');
  }

  /** Splitting a composite key and rejoining it replaces its dots. */
  lemma RejoinSplit(key: Key)
    requires IsFpcCompositeKey(key) && |key| >= 2
    ensures |SplitFpc(key)| > 0 && Rejoin(SplitFpc(key)) == Replace(key, '.', '\0')
  {
    hide SplitFpc, Terminated;
    var rest := key[1..];
    assert key == "." + rest;
    TerminatedComponents(key, rest);
    ReplaceAppend(".", rest, '.', '\0');
    assert Replace(".", '.', '\0') == "\0";
  }

  lemma SingleDot()
    ensures ToFabric(".") == None
  {
    assert DotAt(".") == 0;
    assert "."[1..] == [];
    assert Split("") == [""];
    assert Split(".") == ["", ""];
  }

  /** What the enclave calls a key and what the validator makes of the peer's key are the same. */
  lemma KeyRoundTrip(key: Key)
    requires '\0' !in key && key != "."
    ensures ToFabric(key).Some? && ToFpc(ToFabric(key).value) == key
  {
    if IsFpcCompositeKey(key) {
      assert |key| == 1 ==> key == ".";
      RejoinSplit(key);
      var fabric := Replace(key, '.', '\0');
      assert forall i :: 0 <= i < |key| ==> ToFpc(fabric)[i] == key[i];
    } else {
      ReplaceAbsent(key, '\0', '.');
    }
  }

  /** For a composite key of the peer, the other way round holds exactly when no component contains a dot. */
  lemma FabricRoundTrip(fabric: Key)
    requires |fabric| >= 2 && fabric[0] == '\0' && fabric[|fabric| - 1] == '\0'
    ensures ToFabric(ToFpc(fabric)) == Some(fabric) <==> '.' !in fabric
  {
    var key := ToFpc(fabric);
    RejoinSplit(key);
    var again := Replace(key, '.', '\0');
    assert forall i :: 0 <= i < |fabric| ==> again[i] == if fabric[i] == '.' then '\0' else fabric[i];
    if '.' in fabric {
      var i :| 0 <= i < |fabric| && fabric[i] == '.';
      assert again[i] != fabric[i];
    } else {
      assert again == fabric;
    }
  }

  // ----- components that the peer refuses -----

  /** The peer's test of a component, for instance of its encoding. */
  type Refusal = string -> bool

  /** The key under which the stub asks: when a component is refused, the error is dropped and the key is empty. */
  function PeerKey(key: Key, refuses: Refusal): Option<Key> {
    if IsFpcCompositeKey(key) && exists i :: 0 <= i < |SplitFpc(key)| && refuses(SplitFpc(key)[i]) then Some([])
    else ToFabric(key)
  }

  /** With the peer's refusals, a key survives exactly when no component of it is refused. */
  lemma PeerKeyExactly(key: Key, refuses: Refusal)
    requires '\0' !in key && key != "."
    ensures PeerKey(key, refuses).Some?
    ensures ToFpc(PeerKey(key, refuses).value) == key <==>
            !IsFpcCompositeKey(key) || forall i :: 0 <= i < |SplitFpc(key)| ==> !refuses(SplitFpc(key)[i])
  {
    KeyRoundTrip(key);
    hide SplitFpc;
    assert ToFpc([]) == [];
  }
}
