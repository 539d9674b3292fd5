/** Section 4 of RFC 4648 as coded in common/base64/base64.cpp, with bit fields as quotients and remainders. */
module Base64 {

  type byte = x: int | 0 <= x < 256

  type sextet = x: int | 0 <= x < 64

  /** The characters from a first one on. */
  function CharsFrom(first: char, n: nat): (r: string)
    requires first as int + n < 128
  {
    seq(n, i requires 0 <= i < n => (first as int + i) as char)
  }

  const ALPHABET: string := CharsFrom('A', 26) + CharsFrom('a', 26) + CharsFrom('0', 10) + "+/"

  predicate IsBase64(c: char) {
    'A' <= c <= 'Z' || 'a' <= c <= 'z' || '0' <= c <= '9' || c == '+' || c == '/'
  }

  /** The value of a character. */
  function Sextet(c: char): (v: sextet)
    requires IsBase64(c)
    ensures ALPHABET[v] == c
  {
    if 'A' <= c <= 'Z' then c as int - 'A' as int
    else if 'a' <= c <= 'z' then c as int - 'a' as int + 26
    else if '0' <= c <= '9' then c as int - '0' as int + 52
    else if c == '+' then 62
    else 63
  }

  lemma SextetOfAlphabet(v: sextet)
    ensures IsBase64(ALPHABET[v]) && Sextet(ALPHABET[v]) == v
  {
  }

  /** Table 1 of RFC 4648 by character codes: capital letters, small letters, digits, plus and slash. */
  lemma AlphabetExactly(v: sextet)
    ensures |ALPHABET| == 64
    ensures ALPHABET[v] as int ==
            if v < 26 then 65 + v else if v < 52 then 97 + (v - 26) else if v < 62 then 48 + (v - 52)
            else if v == 62 then 43 else 47
  {
  }

  /** Find a character in the alphabet. */
  method FindChar(c: char) returns (v: sextet)
    requires IsBase64(c)
    ensures v == Sextet(c)
  {
    v := 0;
    while ALPHABET[v] != c
      invariant v <= Sextet(c)
      decreases 64 - v
    {
      v := v + 1;
    }
    SextetOfAlphabet(v);
  }

  // ----- groups of three bytes and four sextets -----

  function S0(a: byte): sextet { a / 4 }

  function S1(a: byte, b: byte): sextet { a % 4 * 16 + b / 16 }

  function S2(b: byte, c: byte): sextet { b % 16 * 4 + c / 64 }

  function S3(c: byte): sextet { c % 64 }

  function O0(p: sextet, q: sextet): byte { p * 4 + q / 16 }

  function O1(q: sextet, r: sextet): byte { q % 16 * 16 + r / 4 }

  function O2(r: sextet, s: sextet): byte { r % 4 * 64 + s }

  lemma FirstOctet(a: byte, b: byte)
    ensures O0(S0(a), S1(a, b)) == a
  {
    assert S1(a, b) / 16 == a % 4;
  }

  lemma SecondOctet(a: byte, b: byte, c: byte)
    ensures O1(S1(a, b), S2(b, c)) == b
  {
    assert S1(a, b) % 16 == b / 16;
    assert S2(b, c) / 4 == b % 16;
  }

  lemma ThirdOctet(b: byte, c: byte)
    ensures O2(S2(b, c), S3(c)) == c
  {
    assert S2(b, c) % 4 == c / 64;
  }

  /** Three bytes and the four sextets they are cut into are the same 24 bits. */
  lemma GroupValue(a: byte, b: byte, c: byte)
    ensures ((S0(a) * 64 + S1(a, b)) * 64 + S2(b, c)) * 64 + S3(c) == (a * 256 + b) * 256 + c
  {
    assert S0(a) * 4 + a % 4 == a;
    assert b == b / 16 * 16 + b % 16 && c == c / 64 * 64 + c % 64;
  }

  /** The bits of the bytes in groups of six, the last group filled up with zeros. */
  function Sextets(bytes: seq<byte>): seq<sextet> {
    if bytes == [] then []
    else if |bytes| == 1 then [S0(bytes[0]), S1(bytes[0], 0)]
    else if |bytes| == 2 then [S0(bytes[0]), S1(bytes[0], bytes[1]), S2(bytes[1], 0)]
    else [S0(bytes[0]), S1(bytes[0], bytes[1]), S2(bytes[1], bytes[2]), S3(bytes[2])] + Sextets(bytes[3..])
  }

  /** The whole bytes in a list of sextets. */
  function Octets(v: seq<sextet>): seq<byte> {
    if |v| <= 1 then []
    else if |v| == 2 then [O0(v[0], v[1])]
    else if |v| == 3 then [O0(v[0], v[1]), O1(v[1], v[2])]
    else [O0(v[0], v[1]), O1(v[1], v[2]), O2(v[2], v[3])] + Octets(v[4..])
  }

  lemma {:induction false} OctetsOfSextets(bytes: seq<byte>)
    ensures Octets(Sextets(bytes)) == bytes
  {
    hide S0, S1, S2, S3, O0, O1, O2;
    if |bytes| == 1 {
      FirstOctet(bytes[0], 0);
    } else if |bytes| == 2 {
      FirstOctet(bytes[0], bytes[1]);
      SecondOctet(bytes[0], bytes[1], 0);
    } else if |bytes| > 2 {
      FirstOctet(bytes[0], bytes[1]);
      SecondOctet(bytes[0], bytes[1], bytes[2]);
      ThirdOctet(bytes[1], bytes[2]);
      assert Sextets(bytes)[4..] == Sextets(bytes[3..]);
      OctetsOfSextets(bytes[3..]);
      assert bytes == [bytes[0], bytes[1], bytes[2]] + bytes[3..];
    }
  }

  // ----- encoding -----

  function Spell(v: seq<sextet>): string {
    seq(|v|, i requires 0 <= i < |v| => ALPHABET[v[i]])
  }

  function Padding(n: nat): string {
    if n % 3 == 1 then "==" else if n % 3 == 2 then "=" else ""
  }

  function Encode(bytes: seq<byte>): string {
    Spell(Sextets(bytes)) + Padding(|bytes|)
  }

  lemma {:induction false} SextetsLength(bytes: seq<byte>)
    ensures |Sextets(bytes)| == |bytes| / 3 * 4 + (if |bytes| % 3 == 0 then 0 else |bytes| % 3 + 1)
  {
    hide S0, S1, S2, S3;
    if |bytes| > 2 {
      SextetsLength(bytes[3..]);
    }
  }

  /** Every started group of three bytes takes four characters. */
  lemma EncodedLength(bytes: seq<byte>)
    ensures |Encode(bytes)| == (|bytes| + 2) / 3 * 4
  {
    SextetsLength(bytes);
  }

  lemma SpellOne(v: sextet, c: char)
    requires c as int == if v < 26 then 65 + v else if v < 52 then 97 + (v - 26) else 48 + (v - 52)
    requires v < 62
    ensures ALPHABET[v] == c
  {
    AlphabetExactly(v);
  }

  /** Section 10 of RFC 4648: the encodings of f, fo and foo. */
  lemma Examples()
    ensures Encode([102]) == "Zg==" && Encode([102, 111]) == "Zm8=" && Encode([102, 111, 111]) == "Zm9v"
  {
    assert Sextets([102]) == [25, 32];
    assert Sextets([102, 111]) == [25, 38, 60];
    assert [102, 111, 111][3..] == [];
    assert Sextets([102, 111, 111]) == [25, 38, 61, 47];
    hide Sextets;
    SpellOne(25, 'Z');
    SpellOne(32, 'g');
    SpellOne(38, 'm');
    SpellOne(60, '8');
    SpellOne(61, '9');
    SpellOne(47, 'v');
    hide ALPHABET;
    assert Spell([25, 32]) == "Zg" && Spell([25, 38, 60]) == "Zm8" && Spell([25, 38, 61, 47]) == "Zm9v";
  }

  // ----- decoding -----

  /** The characters before the first padding or foreign character. */
  function Meaningful(s: string): (r: string)
    ensures r <= s && forall i :: 0 <= i < |r| ==> IsBase64(r[i])
    ensures |r| < |s| ==> !IsBase64(s[|r|])
  {
    if s == [] || !IsBase64(s[0]) then [] else [s[0]] + Meaningful(s[1..])
  }

  function Spelled(s: string): seq<sextet>
    requires forall i :: 0 <= i < |s| ==> IsBase64(s[i])
  {
    seq(|s|, i requires 0 <= i < |s| => Sextet(s[i]))
  }

  function Decode(s: string): seq<byte> {
    Octets(Spelled(Meaningful(s)))
  }

  lemma SpelledSpell(v: seq<sextet>)
    ensures forall i :: 0 <= i < |v| ==> IsBase64(Spell(v)[i])
    ensures Spelled(Spell(v)) == v
  {
    forall i | 0 <= i < |v| ensures IsBase64(Spell(v)[i]) && Sextet(Spell(v)[i]) == v[i] {
      SextetOfAlphabet(v[i]);
    }
  }

  lemma MeaningfulPart(text: string, padding: string)
    requires forall i :: 0 <= i < |text| ==> IsBase64(text[i])
    requires padding != [] ==> !IsBase64(padding[0])
    ensures Meaningful(text + padding) == text
  {
    var r := Meaningful(text + padding);
    assert forall i :: 0 <= i < |text| ==> (text + padding)[i] == text[i];
    assert r == (text + padding)[..|text|] == text;
  }

  /** Whatever is encoded is what decoding gives back. */
  lemma RoundTrip(bytes: seq<byte>)
    ensures Decode(Encode(bytes)) == bytes
  {
    var v := Sextets(bytes);
    SpelledSpell(v);
    MeaningfulPart(Spell(v), Padding(|bytes|));
    OctetsOfSextets(bytes);
  }

  // ----- the loops -----

  lemma {:induction false} SextetsGroup(xs: seq<byte>, ys: seq<byte>)
    requires |xs| % 3 == 0
    ensures Sextets(xs + ys) == Sextets(xs) + Sextets(ys)
  {
    hide S0, S1, S2, S3;
    if xs == [] {
      assert xs + ys == ys;
    } else {
      assert (xs + ys)[3..] == xs[3..] + ys;
      SextetsGroup(xs[3..], ys);
    }
  }

  lemma {:induction false} OctetsGroup(xs: seq<sextet>, ys: seq<sextet>)
    requires |xs| % 4 == 0
    ensures Octets(xs + ys) == Octets(xs) + Octets(ys)
  {
    hide O0, O1, O2;
    if xs == [] {
      assert xs + ys == ys;
    } else {
      assert (xs + ys)[4..] == xs[4..] + ys;
      OctetsGroup(xs[4..], ys);
    }
  }

  /** Append the characters of the first few values of the work array. */
  method AppendChars(text: string, four: array<sextet>, n: nat) returns (r: string)
    requires n <= four.Length
    ensures r == text + Spell(four[..n])
  {
    r := text;
    for j := 0 to n
      invariant r == text + Spell(four[..j])
    {
      r := r + [ALPHABET[four[j]]];
    }
  }

  method EncodeGroup(three: array<byte>, four: array<sextet>)
    requires three.Length == 3 && four.Length == 4
    modifies four
    ensures four[..] == Sextets(three[..])
  {
    four[0] := S0(three[0]);
    four[1] := S1(three[0], three[1]);
    four[2] := S2(three[1], three[2]);
    four[3] := S3(three[2]);
    assert three[..][3..] == [];
  }

  lemma SpellGroup(xs: seq<byte>, ys: seq<byte>)
    requires |xs| % 3 == 0
    ensures Spell(Sextets(xs + ys)) == Spell(Sextets(xs)) + Spell(Sextets(ys))
  {
    SextetsGroup(xs, ys);
    hide Sextets;
  }

  /** The finished groups and the work array hold the values read so far. */
  ghost predicate Buffered<T>(all: seq<T>, done: seq<T>, work: array<T>, i: nat, group: nat)
    reads work
  {
    && i < group == work.Length && |done| + i <= |all| && |done| % group == 0
    && all[..|done| + i] == done + work[..i]
  }

  /** Put the next value of a sequence into the work array. */
  method Store<T>(ghost all: seq<T>, ghost done: seq<T>, work: array<T>, i: nat, group: nat, x: T)
    requires Buffered(all, done, work, i, group) && |done| + i < |all| && all[|done| + i] == x
    modifies work
    ensures i + 1 < group ==> Buffered(all, done, work, i + 1, group)
    ensures i + 1 == group ==> all[..|done| + group] == done + work[..]
  {
    work[i] := x;
    assert work[..i + 1] == old(work[..i]) + [x];
    assert all[..|done| + i + 1] == all[..|done| + i] + [x];
    assert i + 1 == group ==> work[..i + 1] == work[..];
  }

  /** After a full group the work array is empty again. */
  lemma Emptied<T>(all: seq<T>, done: seq<T>, work: array<T>, group: nat)
    requires (group == 3 || group == 4) && group == work.Length && |done| % group == 0 && |done| + group <= |all|
    requires all[..|done| + group] == done + work[..]
    ensures Buffered(all, done + work[..], work, 0, group)
  {
    assert (done + work[..]) + work[..0] == done + work[..];
  }

  method FillZeros(three: array<byte>, i: nat)
    requires i <= three.Length
    modifies three
    ensures three[..] == old(three[..i]) + seq(three.Length - i, m => 0)
  {
    for j := i to three.Length
      invariant three[..j] == old(three[..i]) + seq(j - i, m => 0)
    {
      three[j] := 0;
    }
  }

  /** A full work array: four more characters. */
  method EncodeFull(ghost done: seq<byte>, text: string, three: array<byte>, four: array<sextet>) returns (r: string)
    requires three.Length == 3 && four.Length == 4 && |done| % 3 == 0 && text == Spell(Sextets(done))
    modifies four
    ensures r == Spell(Sextets(done + three[..]))
  {
    hide Sextets, Spell;
    EncodeGroup(three, four);
    SpellGroup(done, three[..]);
    r := AppendChars(text, four, 4);
    assert four[..4] == four[..];
  }

  /** Take one byte; a full group is encoded at once. */
  method EncodeNext(ghost bytes: seq<byte>, ghost done: seq<byte>, text: string, three: array<byte>,
                    four: array<sextet>, i: nat, x: byte)
    returns (r: string, next: nat, ghost finished: seq<byte>)
    requires Buffered(bytes, done, three, i, 3) && four.Length == 4 && text == Spell(Sextets(done))
    requires |done| + i < |bytes| && bytes[|done| + i] == x
    modifies three, four
    ensures Buffered(bytes, finished, three, next, 3) && |finished| + next == |done| + i + 1
    ensures r == Spell(Sextets(finished))
  {
    hide Sextets, Spell;
    Store(bytes, done, three, i, 3, x);
    r, next, finished := text, i + 1, done;
    if next == 3 {
      r := EncodeFull(done, text, three, four);
      Emptied(bytes, done, three, 3);
      next, finished := 0, done + three[..];
    }
  }

  /** base64_encode. */
  method EncodeLoop(bytes: seq<byte>) returns (text: string)
    ensures text == Encode(bytes)
  {
    text := "";
    var three := new byte[3];
    var four := new sextet[4];
    var i := 0;
    ghost var done: seq<byte> := [];
    assert text == Spell(Sextets(done));
    assert Buffered(bytes, done, three, i, 3);
    hide Sextets, Spell, Buffered, Encode;
    for at := 0 to |bytes|
      invariant Buffered(bytes, done, three, i, 3) && |done| + i == at && text == Spell(Sextets(done))
    {
      text, i, done := EncodeNext(bytes, done, text, three, four, i, bytes[at]);
    }
    text := EncodeRest(bytes, done, text, three, four, i);
  }

  method AppendPadding(text: string, ghost n: nat, i: nat) returns (r: string)
    requires 0 < i < 3 && n % 3 == i
    ensures r == text + Padding(n)
  {
    r := text;
    for j := i to 3
      invariant r == text + seq(j - i, m => '=')
    {
      r := r + "=";
    }
    assert seq(3 - i, m => '=') == Padding(n);
  }

  /** The last bytes, filled up with zeros and padding. */
  method EncodeRest(ghost bytes: seq<byte>, ghost done: seq<byte>, text: string, three: array<byte>,
                    four: array<sextet>, i: nat)
    returns (r: string)
    requires Buffered(bytes, done, three, i, 3) && |done| + i == |bytes| && four.Length == 4
    requires text == Spell(Sextets(done))
    modifies three, four
    ensures r == Encode(bytes)
  {
    r := text;
    ghost var rest := three[..i];
    assert bytes[..|bytes|] == bytes;
    if i == 0 {
      assert done + rest == done;
    } else {
      r := EncodeLast(done, rest, text, three, four, i);
      hide Sextets, Spell;
      r := AppendPadding(r, |bytes|, i);
    }
  }

  /** The characters of an incomplete group. */
  method EncodeLast(ghost done: seq<byte>, ghost rest: seq<byte>, text: string, three: array<byte>, four: array<sextet>,
                    i: nat)
    returns (r: string)
    requires three.Length == 3 && four.Length == 4 && 0 < i < 3 && rest == three[..i]
    requires |done| % 3 == 0 && text == Spell(Sextets(done))
    modifies three, four
    ensures r == Spell(Sextets(done + rest))
  {
    hide Spell, Sextets;
    FillZeros(three, i);
    EncodeGroup(three, four);
    LastGroup(rest, three[..], four[..]);
    r := AppendChars(text, four, i + 1);
    SpellGroup(done, rest);
  }

  lemma LastGroup(rest: seq<byte>, three: seq<byte>, four: seq<sextet>)
    requires 0 < |rest| < 3 && three == rest + seq(3 - |rest|, m => 0) && four == Sextets(three)
    ensures |four| == 4 && four[..|rest| + 1] == Sextets(rest)
  {
  }

  /** The bytes of one group of four values, and of an incomplete last group of at most three. */
  method DecodeGroup(four: array<sextet>, n: nat) returns (bytes: seq<byte>)
    requires four.Length == 4 && n <= 4
    ensures bytes == Octets(four[..n])
  {
    hide O0, O1, O2;
    bytes := [];
    if n == 4 {
      bytes := [O0(four[0], four[1]), O1(four[1], four[2]), O2(four[2], four[3])];
      assert four[..4][4..] == [];
    } else if n > 0 {
      var three := [O0(four[0], four[1]), O1(four[1], four[2])];
      for j := 0 to n - 1
        invariant bytes == three[..j]
      {
        bytes := bytes + [three[j]];
      }
    }
  }

  method DecodeFull(ghost done: seq<sextet>, bytes: seq<byte>, four: array<sextet>, n: nat) returns (r: seq<byte>)
    requires four.Length == 4 && n <= 4 && |done| % 4 == 0 && bytes == Octets(done)
    ensures r == Octets(done + four[..n])
  {
    hide Octets;
    OctetsGroup(done, four[..n]);
    var group := DecodeGroup(four, n);
    r := bytes + group;
  }

  /** The values of the characters before the first padding or foreign one. */
  ghost predicate Reads(s: string, all: seq<sextet>) {
    && |all| <= |s|
    && (forall i :: 0 <= i < |all| ==> IsBase64(s[i]) && all[i] == Sextet(s[i]))
    && (|all| < |s| ==> !IsBase64(s[|all|]))
  }

  lemma ReadsAt(s: string, all: seq<sextet>, at: nat)
    requires Reads(s, all) && at <= |all|
    ensures at < |all| <==> at < |s| && s[at] != '=' && IsBase64(s[at])
    ensures at < |all| ==> all[at] == Sextet(s[at])
  {
  }

  /** Take one value; a full group is decoded at once. */
  method DecodeNext(ghost all: seq<sextet>, ghost done: seq<sextet>, bytes: seq<byte>, four: array<sextet>, i: nat,
                    v: sextet)
    returns (r: seq<byte>, next: nat, ghost finished: seq<sextet>)
    requires Buffered(all, done, four, i, 4) && bytes == Octets(done)
    requires |done| + i < |all| && all[|done| + i] == v
    modifies four
    ensures Buffered(all, finished, four, next, 4) && |finished| + next == |done| + i + 1
    ensures r == Octets(finished)
  {
    hide Octets;
    Store(all, done, four, i, 4, v);
    r, next, finished := bytes, i + 1, done;
    if next == 4 {
      assert four[..4] == four[..];
      r := DecodeFull(done, bytes, four, 4);
      Emptied(all, done, four, 4);
      next, finished := 0, done + four[..];
    }
  }

  /** base64_decode. */
  method DecodeLoop(s: string, ghost all: seq<sextet>) returns (bytes: seq<byte>)
    requires Reads(s, all)
    ensures bytes == Octets(all)
  {
    bytes := [];
    var four := new sextet[4];
    var i, at := 0, 0;
    ghost var done: seq<sextet> := [];
    assert bytes == Octets(done);
    assert Buffered(all, done, four, i, 4);
    hide Octets, Sextet, Reads, IsBase64, Buffered;
    while at < |s| && s[at] != '=' && IsBase64(s[at])
      invariant Buffered(all, done, four, i, 4) && |done| + i == at <= |all| && bytes == Octets(done)
    {
      ReadsAt(s, all, at);
      var v := FindChar(s[at]);
      bytes, i, done := DecodeNext(all, done, bytes, four, i, v);
      at := at + 1;
    }
    ReadsAt(s, all, at);
    bytes := DecodeLast(all, done, bytes, four, i);
  }

  method DecodeLast(ghost all: seq<sextet>, ghost done: seq<sextet>, bytes: seq<byte>, four: array<sextet>, i: nat)
    returns (r: seq<byte>)
    requires Buffered(all, done, four, i, 4) && |done| + i == |all| && bytes == Octets(done)
    ensures r == Octets(all)
  {
    hide Octets;
    assert all[..|all|] == all;
    r := DecodeFull(done, bytes, four, i);
  }

  method DecodeText(s: string) returns (bytes: seq<byte>)
    ensures bytes == Decode(s)
  {
    bytes := DecodeLoop(s, Spelled(Meaningful(s)));
  }
}
