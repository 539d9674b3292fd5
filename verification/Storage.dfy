/**
 * Strings stored by the auction: a decimal length and the bytes with a terminating NUL, each encrypted and encoded in
 * base64 on its way to the peer (demo/chaincode/fpc/storage.cpp, ecc_enclave/enclave/shim.cpp).
 */
module Storage {
  import opened Basics
  import opened Base64

  type Bytes = seq<byte>

  // ----- decimal lengths -----

  /** std::to_string. */
  function Digits(n: nat): (r: Bytes)
    ensures r != []
    ensures forall i :: 0 <= i < |r| ==> 48 <= r[i] < 58
  {
    if n < 10 then [48 + n] else Digits(n / 10) + [48 + n % 10]
  }

  function Power10(k: nat): (r: nat)
    ensures r > 0
  {
    if k == 0 then 1 else 10 * Power10(k - 1)
  }

  /** A number below 10^k has at most k digits, and conversely. */
  lemma {:induction false} DigitCount(n: nat, k: nat)
    requires k > 0
    ensures |Digits(n)| <= k <==> n < Power10(k)
  {
    if k == 1 {
      assert Power10(1) == 10 * Power10(0);
    } else {
      assert Power10(k) == 10 * Power10(k - 1);
      if n < 10 {
        PowerAtLeastTen(k);
      } else {
        DigitCount(n / 10, k - 1);
      }
    }
  }

  lemma {:induction false} PowerAtLeastTen(k: nat)
    requires k > 0
    ensures Power10(k) >= 10
  {
    if k > 1 {
      PowerAtLeastTen(k - 1);
    } else {
      assert Power10(1) == 10 * Power10(0);
    }
  }

  predicate IsDigit(b: byte) {
    48 <= b < 58
  }

  predicate IsBlank(b: byte) {
    b == 32 || 9 <= b < 14
  }

  function DropBlanks(s: Bytes): (r: Bytes)
    ensures |r| <= |s|
  {
    if s != [] && IsBlank(s[0]) then DropBlanks(s[1..]) else s
  }

  const LONG := WORD * WORD  // the range of a 64-bit unsigned integer

  /**
   * std::stoul, cut to 32 bits: white space, an optional sign, and the leading digits; a minus sign negates in 64 bits.
   * Nothing when there is no digit or the number does not fit, where the function throws.
   */
  function Stoul(s: Bytes): Option<nat> {
    var t := DropBlanks(s);
    var signed := t != [] && (t[0] == 43 || t[0] == 45);
    var digits := if signed then t[1..] else t;
    if digits == [] || !IsDigit(digits[0]) || Accumulate(digits, 0) >= LONG then None
    else
      var n := Accumulate(digits, 0);
      Some((if signed && t[0] == 45 then LONG - n else n) % WORD)
  }

  function Accumulate(s: Bytes, value: nat): nat
    decreases |s|
  {
    if s == [] || !IsDigit(s[0]) then value else Accumulate(s[1..], 10 * value + (s[0] - 48))
  }

  lemma {:induction false} AccumulateAppend(xs: Bytes, d: byte, value: nat)
    requires forall i :: 0 <= i < |xs| ==> IsDigit(xs[i])
    requires IsDigit(d)
    ensures Accumulate(xs + [d], value) == 10 * Accumulate(xs, value) + (d - 48)
    decreases |xs|
  {
    if xs == [] {
      assert (xs + [d])[1..] == [];
    } else {
      assert (xs + [d])[1..] == xs[1..] + [d];
      AccumulateAppend(xs[1..], d, 10 * value + (xs[0] - 48));
    }
  }

  lemma StoulOfDigits(n: nat)
    requires n < WORD
    ensures Stoul(Digits(n)) == Some(n)
  {
    AccumulateDigits(n);
    var s := Digits(n);
    assert IsDigit(s[0]);
    hide Digits, Accumulate;
  }

  lemma {:induction false} AccumulateDigits(n: nat)
    ensures Accumulate(Digits(n), 0) == n
  {
    if n < 10 {
      assert [48 + n][1..] == [];
    } else {
      AccumulateDigits(n / 10);
      AccumulateAppend(Digits(n / 10), 48 + n % 10, 0);
    }
  }

  lemma {:induction false} DropBlanksOf(blanks: Bytes, s: Bytes)
    requires (forall i :: 0 <= i < |blanks| ==> IsBlank(blanks[i])) && (s != [] ==> !IsBlank(s[0]))
    ensures DropBlanks(blanks + s) == s
  {
    if blanks == [] {
      assert blanks + s == s;
    } else {
      assert (blanks + s)[1..] == blanks[1..] + s;
      DropBlanksOf(blanks[1..], s);
    }
  }

  lemma {:induction false} AccumulateStops(digits: Bytes, rest: Bytes, value: nat)
    requires (forall i :: 0 <= i < |digits| ==> IsDigit(digits[i])) && (rest != [] ==> !IsDigit(rest[0]))
    ensures Accumulate(digits + rest, value) == Accumulate(digits, value)
    decreases |digits|
  {
    if digits == [] {
      assert digits + rest == rest;
    } else {
      assert (digits + rest)[1..] == digits[1..] + rest;
      AccumulateStops(digits[1..], rest, 10 * value + (digits[0] - 48));
    }
  }

  /** Behind white space and a sign stand the digits. */
  lemma SignedText(blanks: Bytes, sign: Bytes, digits: Bytes)
    requires forall i :: 0 <= i < |blanks| ==> IsBlank(blanks[i])
    requires sign == [] || sign == [43] || sign == [45]
    requires digits != [] && IsDigit(digits[0])
    ensures DropBlanks(blanks + (sign + digits)) == sign + digits
    ensures (sign + digits)[0] == if sign == [] then digits[0] else sign[0]
    ensures sign == [] ==> sign + digits == digits && digits[0] != 43 && digits[0] != 45
    ensures sign != [] ==> (sign + digits)[1..] == digits
  {
    DropBlanksOf(blanks, sign + digits);
  }

  /** Negating zero in 64 bits gives zero in 32. */
  lemma WordDivides()
    ensures LONG % WORD == 0
  {
  }

  /** std::stoul ignores white space before a number, obeys its sign, and ignores what follows its digits. */
  lemma StoulExactly(blanks: Bytes, sign: Bytes, n: nat, rest: Bytes)
    requires forall i :: 0 <= i < |blanks| ==> IsBlank(blanks[i])
    requires sign == [] || sign == [43] || sign == [45]
    requires rest != [] ==> !IsDigit(rest[0])
    ensures Stoul(blanks + (sign + (Digits(n) + rest))) ==
            if n >= LONG then None
            else if sign == [45] && n > 0 then Some((LONG - n) % WORD)
            else Some(n % WORD)
  {
    var digits := Digits(n) + rest;
    assert digits[0] == Digits(n)[0] && IsDigit(digits[0]);
    AccumulateDigits(n);
    AccumulateStops(Digits(n), rest, 0);
    hide Digits, Accumulate, DropBlanks, IsDigit, IsBlank;
    WordDivides();
    SignedText(blanks, sign, digits);
  }

  /** A text that does not begin with a number, after white space and a sign, has none. */
  lemma NoNumber(blanks: Bytes, sign: Bytes, rest: Bytes)
    requires forall i :: 0 <= i < |blanks| ==> IsBlank(blanks[i])
    requires sign == [43] || sign == [45]
    requires rest != [] ==> !IsDigit(rest[0])
    ensures Stoul(blanks + (sign + rest)) == None
  {
    var t := sign + rest;
    assert t[0] == sign[0] && t[1..] == rest;
    DropBlanksOf(blanks, t);
    hide DropBlanks, Accumulate;
  }

  // ----- strings in C -----

  /** The bytes before the first NUL. */
  function BeforeNul(s: Bytes): (r: Bytes)
    ensures r <= s && 0 !in r
    ensures |r| < |s| ==> s[|r|] == 0
    ensures 0 !in s ==> r == s
  {
    if s == [] || s[0] == 0 then [] else [s[0]] + BeforeNul(s[1..])
  }

  lemma BeforeNulOf(s: Bytes)
    ensures BeforeNul(s + [0]) == s <==> 0 !in s
  {
    var r := BeforeNul(s + [0]);
    if 0 !in s {
      assert (s + [0])[..|s|] == s;
      assert forall i :: 0 <= i < |s| ==> (s + [0])[i] == s[i];
      assert |r| == |s|;
    }
  }

  // ----- encrypted state -----

  const OVERHEAD := 28  // initialization vector and authentication tag

  /** Encryption under the state key, with a random initialization vector, and decryption. */
  datatype Cipher = Cipher(seal: (Bytes, Bytes) -> Bytes, open: Bytes -> Option<Bytes>)

  ghost predicate Sound(c: Cipher) {
    forall iv: Bytes, p: Bytes :: |c.seal(iv, p)| == |p| + OVERHEAD && c.open(c.seal(iv, p)) == Some(p)
  }

  /** The world state of the peer: encoded values by key. */
  type World = map<string, string>

  /** What a read gives: nothing, a value, or an exception. */
  datatype Reply = Nothing | Value(bytes: Bytes) | Failure

  /** The size of the buffer for the encoded value. */
  function BufferSize(max: nat): nat {
    (max + OVERHEAD + 2) / 3 * 4
  }

  function PutState(w: World, c: Cipher, key: string, value: Bytes, iv: Bytes): World {
    w[key := Encode(c.seal(iv, value))]
  }

  /** An encoded value that does not fit the buffer reads as absent. */
  function GetState(w: World, c: Cipher, key: string, max: nat): Reply {
    if key !in w || |w[key]| == 0 || |w[key]| > BufferSize(max) then Nothing
    else
      var sealed := Decode(w[key]);
      if |sealed| < OVERHEAD then Failure
      else match c.open(sealed) case Some(p) => Value(p) case None => Failure
  }

  /** A stored value is read back exactly when it takes no more groups of three bytes than the buffer allows for. */
  lemma GetAfterPut(w: World, c: Cipher, key: string, value: Bytes, iv: Bytes, max: nat)
    requires Sound(c)
    ensures GetState(PutState(w, c, key, value, iv), c, key, max) ==
            if (|value| + OVERHEAD + 2) / 3 <= (max + OVERHEAD + 2) / 3 then Value(value) else Nothing
    ensures |value| <= max ==> GetState(PutState(w, c, key, value, iv), c, key, max) == Value(value)
  {
    var sealed := c.seal(iv, value);
    assert |sealed| == |value| + OVERHEAD && c.open(sealed) == Some(value);
    EncodedLength(sealed);
    RoundTrip(sealed);
    hide Encode, Decode;
  }

  lemma GetUnderOtherKey(w: World, c: Cipher, key: string, value: Bytes, iv: Bytes, other: string, max: nat)
    requires other != key
    ensures GetState(PutState(w, c, key, value, iv), c, other, max) == GetState(w, c, other, max)
  {
  }

  // ----- strings -----

  const MAX_LENGTH_STRING_SIZE := 10

  // Keys reach the functions below as C strings.

  function LengthKey(key: string): string { CString(key + "L") }

  function ValueKey(key: string): string { CString(key + "K") }

  /** The length with the terminating NUL, in 32 bits. */
  function StoredLength(value: Bytes): nat {
    (|value| + 1) % WORD
  }

  function PutString(w: World, c: Cipher, key: string, value: Bytes, iv: Bytes, iv': Bytes): World {
    var n := StoredLength(value);
    if |Digits(n)| > MAX_LENGTH_STRING_SIZE then w
    else PutState(PutState(w, c, LengthKey(key), Digits(n) + [0], iv), c, ValueKey(key), (value + [0])[..n], iv')
  }

  /** The length found under a key, when it is well formed. */
  function GetLength(w: World, c: Cipher, key: string): Option<nat> {
    match GetState(w, c, LengthKey(key), MAX_LENGTH_STRING_SIZE + 1)
    case Value(text) =>
      if |text| == 0 || |text| > MAX_LENGTH_STRING_SIZE || text[|text| - 1] != 0 then None else Stoul(BeforeNul(text))
    case _ => None
  }

  function GetString(w: World, c: Cipher, key: string): Option<Bytes> {
    var n := GetLength(w, c, key);
    if n.None? || n.value == 0 then None
    else
      match GetState(w, c, ValueKey(key), n.value)
      case Value(bytes) =>
        if |bytes| != n.value || bytes[n.value - 1] != 0 then None else Some(BeforeNul(bytes))
      case _ => None
  }

  lemma KeysDiffer(key: string, other: string)
    requires '\0' !in key && '\0' !in other
    ensures LengthKey(key) == key + "L" && ValueKey(key) == key + "K"
    ensures LengthKey(key) != ValueKey(other)
    ensures key != other ==> LengthKey(key) != LengthKey(other) && ValueKey(key) != ValueKey(other)
  {
    assert LengthKey(key) == key + "L" && ValueKey(other) == other + "K";
    assert LengthKey(other) == other + "L" && ValueKey(key) == key + "K";
    assert (key + "L")[|key|] == 'L' && (other + "K")[|other|] == 'K';
    if key + "L" == other + "L" || key + "K" == other + "K" {
      assert |key| == |other|;
      assert key == (key + "L")[..|key|] && key == (key + "K")[..|key|];
      assert other == (other + "L")[..|other|] && other == (other + "K")[..|other|];
    }
  }

  /** What reading the length gives after a string was stored: the length, unless it has ten digits. */
  lemma LengthAfterPut(w: World, c: Cipher, key: string, value: Bytes, iv: Bytes, iv': Bytes)
    requires Sound(c) && '\0' !in key
    ensures var n := StoredLength(value);
            GetLength(PutString(w, c, key, value, iv, iv'), c, key) == if n < Power10(9) then Some(n) else None
  {
    hide GetState, PutState, Digits, Stoul, Power10, BeforeNul, LengthKey, ValueKey;
    var n := StoredLength(value);
    WordHasTenDigits(n);
    DigitCount(n, 9);
    DigitCount(n, 10);
    StoulOfDigits(n);
    KeysDiffer(key, key);
    var text := Digits(n) + [0];
    var w' := PutState(w, c, LengthKey(key), text, iv);
    GetAfterPut(w, c, LengthKey(key), text, iv, MAX_LENGTH_STRING_SIZE + 1);
    GetUnderOtherKey(w', c, ValueKey(key), (value + [0])[..n], iv', LengthKey(key), MAX_LENGTH_STRING_SIZE + 1);
    BeforeNulOf(Digits(n));
    assert 0 !in Digits(n);
  }

  lemma WordHasTenDigits(n: nat)
    requires n < WORD
    ensures n < Power10(10)
  {
    assert Power10(10) == 10000000000;
  }

  /**
   * A stored string is read back exactly when it has no NUL and its length with the terminator stays below 10^9.
   * Storing accepts lengths of ten digits, reading refuses them.
   */
  lemma StringRoundTrip(w: World, c: Cipher, key: string, value: Bytes, iv: Bytes, iv': Bytes)
    requires Sound(c) && '\0' !in key
    ensures GetString(PutString(w, c, key, value, iv, iv'), c, key) == Some(value) <==>
            0 !in value && |value| + 1 < 1_000_000_000
  {
    hide GetState, PutState, Digits, Power10, GetLength, LengthKey, ValueKey, BeforeNul;
    var n := StoredLength(value);
    NinePowers();
    LengthAfterPut(w, c, key, value, iv, iv');
    if n < Power10(9) {
      WordHasTenDigits(n);
      DigitCount(n, 10);
      var bytes := (value + [0])[..n];
      var w' := PutState(w, c, LengthKey(key), Digits(n) + [0], iv);
      GetAfterPut(w', c, ValueKey(key), bytes, iv', n);
      StoredBytes(value);
    }
  }

  /** The stored bytes end with their only NUL exactly when the length did not wrap around and the string has none. */
  lemma StoredBytes(value: Bytes)
    ensures var n := StoredLength(value);
            var bytes := (value + [0])[..n];
            n > 0 && bytes[n - 1] == 0 && BeforeNul(bytes) == value <==> 0 !in value && |value| + 1 == n
  {
    var n := StoredLength(value);
    var bytes := (value + [0])[..n];
    BeforeNulOf(value);
    if n == |value| + 1 {
      assert bytes == value + [0];
    } else if n > 0 && bytes[n - 1] == 0 {
      assert |BeforeNul(bytes)| < n;
    }
  }

  lemma NinePowers()
    ensures Power10(9) == 1_000_000_000
  {
  }

  /** Storing under one key does not disturb what is read under another. */
  lemma PutDisturbsNothingElse(w: World, c: Cipher, key: string, value: Bytes, iv: Bytes, iv': Bytes, other: string)
    requires '\0' !in key && '\0' !in other && key != other
    ensures GetString(PutString(w, c, key, value, iv, iv'), c, other) == GetString(w, c, other)
  {
    hide Digits, Stoul, BeforeNul, LengthKey, ValueKey, GetState, PutState;
    KeysDiffer(key, other);
    KeysDiffer(other, key);
    var n := StoredLength(value);
    var text, bytes := Digits(n) + [0], (value + [0])[..n];
    OtherKeyReads(w, c, LengthKey(key), text, iv, ValueKey(key), bytes, iv', LengthKey(other));
    OtherKeyReads(w, c, LengthKey(key), text, iv, ValueKey(key), bytes, iv', ValueKey(other));
  }

  lemma OtherKeyReads(w: World, c: Cipher, k: string, v: Bytes, iv: Bytes, k': string, v': Bytes, iv': Bytes,
                      other: string)
    requires other != k && other != k'
    ensures forall max ::
              GetState(PutState(PutState(w, c, k, v, iv), c, k', v', iv'), c, other, max) == GetState(w, c, other, max)
  {
    hide Encode, Decode;
  }

  // ----- the objects -----

  /** Access to the peer's world state from one enclave, which holds the state encryption key. */
  class StateAccess {
    const cipher: Cipher
    var world: World

    constructor (cipher: Cipher, world: World)
      ensures this.cipher == cipher && this.world == world
    {
      this.cipher, this.world := cipher, world;
    }

    /** The peer returns nothing when the value does not fit. */
    method GetPublicState(key: string, max: nat) returns (val: string)
      ensures val == if key in world && |world[key]| <= max then world[key] else []
    {
      val := if key in world && |world[key]| <= max then world[key] else [];
    }

    method PutPublicState(key: string, val: string)
      modifies this
      ensures world == old(world)[key := val]
    {
      world := world[key := val];
    }

    /** The value is decrypted into the caller's buffer. */
    method Get(key: string, buf: array<byte>) returns (reply: Reply)
      modifies buf
      ensures reply == GetState(world, cipher, key, buf.Length)
      ensures reply.Value? && |reply.bytes| <= buf.Length ==> buf[..|reply.bytes|] == reply.bytes
    {
      var encoded := GetPublicState(key, BufferSize(buf.Length));
      if |encoded| == 0 {
        return Nothing;
      }
      var sealed := DecodeText(encoded);
      if |sealed| < OVERHEAD {
        return Failure;
      }
      match cipher.open(sealed)
      case Some(p) =>
        reply := Value(p);
        Fill(buf, p);
      case None => reply := Failure;
    }

    static method Fill(buf: array<byte>, p: Bytes)
      modifies buf
      ensures |p| <= buf.Length ==> buf[..|p|] == p
    {
      for i := 0 to if |p| <= buf.Length then |p| else buf.Length
        invariant buf[..i] == p[..i]
      {
        buf[i] := p[i];
      }
    }

    method Put(key: string, value: Bytes, iv: Bytes)
      modifies this
      ensures world == PutState(old(world), cipher, key, value, iv)
    {
      var encoded := EncodeLoop(cipher.seal(iv, value));
      PutPublicState(key, encoded);
    }

    /** Nothing is written when the length has too many digits. */
    method LedgerPrivatePutString(key: string, value: Bytes, iv: Bytes, iv': Bytes)
      modifies this
      ensures world == PutString(old(world), cipher, key, value, iv, iv')
    {
      var n := (|value| + 1) % WORD;
      var text := Digits(n);
      if |text| == 0 || |text| > MAX_LENGTH_STRING_SIZE {
        return;
      }
      Put(LengthKey(key), text + [0], iv);
      Put(ValueKey(key), (value + [0])[..n], iv');
    }

    /** The stored length of a string. */
    method ReadLength(key: string) returns (n: Option<nat>)
      ensures n == GetLength(world, cipher, key)
    {
      hide GetState, Stoul, BeforeNul;
      var buf := new byte[MAX_LENGTH_STRING_SIZE + 1];
      var reply := Get(LengthKey(key), buf);
      if !reply.Value? || |reply.bytes| == 0 || |reply.bytes| > MAX_LENGTH_STRING_SIZE {
        return None;
      }
      if buf[|reply.bytes| - 1] != 0 {
        return None;
      }
      n := Stoul(BeforeNul(buf[..|reply.bytes|]));
    }

    method LedgerPrivateGetString(key: string) returns (value: Option<Bytes>)
      ensures value == GetString(world, cipher, key)
    {
      hide GetState, GetLength, BeforeNul;
      var n := ReadLength(key);
      if n.None? || n.value == 0 {
        return None;
      }
      var buf := new byte[n.value];
      var stored := Get(ValueKey(key), buf);
      if !stored.Value? || |stored.bytes| != n.value || buf[n.value - 1] != 0 {
        return None;
      }
      assert buf[..] == buf[..n.value];
      return Some(BeforeNul(buf[..]));
    }
  }
}
