/**
 * The text in which the peer hands the result of a range read to the enclave: keys and values between quotes, without
 * escaping (ecc/enclave/enclave_stub.go, ecc_enclave/enclave/shim.cpp).
 */
module RangeAnswer {
  import opened Basics
  import opened ByteOrder
  import opened Json
  import opened JsonRoundTrip

  predicate AllPlain(s: string) {
    forall i :: 0 <= i < |s| ==> IsPlain(s[i])
  }

  /** A text between quotes, as it is. */
  function RawQuote(s: string): string {
    "\"" + s + "\""
  }

  // ----- one string -----

  lemma {:induction false} UnescapePlain(s: string)
    requires AllPlain(s)
    ensures Unescape(s) == Some(s)
  {
    if s != [] {
      UnescapePlain(s[1..]);
      assert s == [s[0]] + s[1..];
    }
  }

  /** An escape takes more characters than it stands for. */
  lemma NextCharShrinks(s: string)
    requires s != [] && NextChar(s).Done?
    ensures var p := NextChar(s); |p.result| + |p.rest| <= |s| && (s[0] == '\\' ==> |p.result| + |p.rest| < |s|)
    ensures s[0] != '\\' ==> NextChar(s) == Done([s[0]], s[1..]) && s[0] >= ' '
  {
    hide Hex4;
  }

  lemma {:induction false} UnescapeShrinks(s: string)
    requires Unescape(s).Some?
    ensures |Unescape(s).value| <= |s|
    ensures (exists i :: 0 <= i < |s| && (s[i] == '\\' || s[i] < ' ')) ==> |Unescape(s).value| < |s|
    decreases |s|
  {
    if s != [] {
      NextCharShrinks(s);
      hide NextChar;
      UnescapeShrinks(NextChar(s).rest);
      if i :| 0 <= i < |s| && (s[i] == '\\' || s[i] < ' ') {
        assert i > 0 ==> s[1..][i - 1] == s[i];
      }
    }
  }

  lemma {:induction false} FirstQuote(s: string, tail: string, i: nat)
    requires i < |s| && s[i] == '\"' && '\\' !in s
    ensures var n := ToQuote(s + tail); n.Some? && n.value < |s|
    decreases |s|
  {
    if s[0] != '\"' {
      assert (s + tail)[1..] == s[1..] + tail;
      FirstQuote(s[1..], tail, i - 1);
    }
  }

  /** A text between quotes is read back exactly when it holds no quote, no backslash and no control character. */
  lemma RawQuoteExactly(s: string, rest: string)
    ensures ParseQuoted(RawQuote(s) + rest) == Done(s, rest) <==> AllPlain(s)
  {
    var text, tail := RawQuote(s) + rest, "\"" + rest;
    assert text[1..] == s + tail;
    if AllPlain(s) {
      PlainPast(s, tail);
      UnescapePlain(s);
      hide Unescape;
      assert ToQuote(tail) == Some(0);
      assert text[1..|s| + 1] == s && text[|s| + 2..] == rest;
      assert '\0' !in s;
    } else if ParseQuoted(text) == Done(s, rest) {
      hide ToQuote;
      var n := ToQuote(s + tail);
      assert n.value == |s|;
      assert text[1..|s| + 1] == s;
      var bad :| 0 <= bad < |s| && !IsPlain(s[bad]);
      UnescapeShrinks(s);
      if '\\' !in s {
        FirstQuote(s, tail, bad);
      }
      assert false;
    }
  }

  // ----- the whole text -----

  function Row(x: Item<string>): string {
    "{" + (RawPair("key", x.key) + "," + (RawPair("value", x.value) + "}"))
  }

  function Rows(items: seq<Item<string>>): string {
    if items == [] then []
    else Row(items[0]) + (if |items| == 1 then [] else "," + Rows(items[1..]))
  }

  function AnswerText(items: seq<Item<string>>): string {
    "[" + Rows(items) + "]"
  }

  function Pair(x: Item<string>): Value {
    Object([Member("key", Text(x.key)), Member("value", Text(x.value))])
  }

  function Pairs(items: seq<Item<string>>): seq<Value> {
    seq(|items|, i requires 0 <= i < |items| => Pair(items[i]))
  }

  predicate PlainItem(x: Item<string>) {
    AllPlain(x.key) && AllPlain(x.value)
  }

  lemma RawText(x: string, nesting: nat, rest: string, strtod: Strtod)
    requires AllPlain(x) && nesting <= MAX_NESTING
    ensures ParseValue(RawQuote(x) + rest, nesting, strtod) == Done(Text(x), rest)
  {
    RawQuoteExactly(x, rest);
    hide ParseQuoted, ParseElements, ParseMembers;
    var t := RawQuote(x) + rest;
    assert t[0] == '\"' && SkipSpace(t) == t;
  }

  lemma RawMember(name: string, x: string, nesting: nat, rest: string, strtod: Strtod)
    requires AllPlain(name) && AllPlain(x) && nesting <= MAX_NESTING
    ensures ParseMember(RawPair(name, x) + rest, nesting, strtod) == Done(Member(name, Text(x)), rest)
  {
    hide ParseQuoted, ParseValue, RawQuote, AllPlain;
    var after := ":" + (RawQuote(x) + rest);
    Associate(RawQuote(name) + ":", RawQuote(x), rest);
    Associate(RawQuote(name), ":", RawQuote(x) + rest);
    RawQuoteExactly(name, after);
    RawText(x, nesting, rest, strtod);
    assert SkipSpace(after) == after && after[1..] == RawQuote(x) + rest;
  }

  // One step of the loops over members and elements.

  lemma MemberStep(s: string, m: Member, rest: string, more: string, nesting: nat, before: seq<Member>, strtod: Strtod)
    requires ParseMember(s, nesting, strtod) == Done(m, rest) && !HasName(before, m.name)
    ensures rest == "," + more && Solid(more) ==>
              ParseMembers(s, nesting, before, strtod) == ParseMembers(more, nesting, before + [m], strtod)
    ensures rest == "}" + more ==> ParseMembers(s, nesting, before, strtod) == Done(before + [m], more)
  {
    hide ParseMember;
    if rest == "," + more {
      assert SkipSpace(rest) == rest && rest[1..] == more;
    }
    if rest == "}" + more {
      assert SkipSpace(rest) == rest && rest[1..] == more;
    }
  }

  lemma ElementStep(s: string, v: Value, rest: string, more: string, nesting: nat, before: seq<Value>, strtod: Strtod)
    requires ParseValue(s, nesting, strtod) == Done(v, rest)
    ensures rest == "," + more && Solid(more) ==>
              ParseElements(s, nesting, before, strtod) == ParseElements(more, nesting, before + [v], strtod)
    ensures rest == "]" + more ==> ParseElements(s, nesting, before, strtod) == Done(before + [v], more)
  {
    hide ParseValue;
    if rest == "," + more {
      assert SkipSpace(rest) == rest && rest[1..] == more;
    }
    if rest == "]" + more {
      assert SkipSpace(rest) == rest && rest[1..] == more;
    }
  }

  function RawPair(name: string, x: string): string {
    RawQuote(name) + ":" + RawQuote(x)
  }

  lemma RawPairStarts(name: string, x: string, rest: string)
    ensures Starts(RawPair(name, x) + rest, '\"') && Solid(RawPair(name, x) + rest)
  {
  }

  lemma BothMembers(x: Item<string>, nesting: nat, rest: string, strtod: Strtod)
    requires PlainItem(x) && nesting <= MAX_NESTING
    ensures ParseMembers(RawPair("key", x.key) + ("," + (RawPair("value", x.value) + ("}" + rest))), nesting, [],
                         strtod)
         == Done([Member("key", Text(x.key)), Member("value", Text(x.value))], rest)
  {
    hide ParseMembers, ParseMember, AllPlain;
    var last := RawPair("value", x.value) + ("}" + rest);
    var first, second := Member("key", Text(x.key)), Member("value", Text(x.value));
    PlainNames();
    RawMember("key", x.key, nesting, "," + last, strtod);
    RawMember("value", x.value, nesting, "}" + rest, strtod);
    RawPairStarts("value", x.value, "}" + rest);
    hide RawPair, Solid;
    MemberStep(RawPair("key", x.key) + ("," + last), first, "," + last, last, nesting, [], strtod);
    MemberStep(last, second, "}" + rest, rest, nesting, [first], strtod);
    assert [] + [first] == [first] && [first] + [second] == [first, second];
  }

  lemma PlainNames()
    ensures AllPlain("key") && AllPlain("value")
  {
  }

  lemma RowParses(x: Item<string>, nesting: nat, rest: string, strtod: Strtod)
    requires PlainItem(x) && nesting + 1 <= MAX_NESTING
    ensures ParseValue(Row(x) + rest, nesting, strtod) == Done(Pair(x), rest)
  {
    hide ParseMembers, ParseValue, RawPair, AllPlain;
    var key, value := RawPair("key", x.key), RawPair("value", x.value);
    var inner := key + ("," + (value + ("}" + rest)));
    BothMembers(x, nesting + 1, rest, strtod);
    RawPairStarts("key", x.key, "," + (value + ("}" + rest)));
    var text := Row(x) + rest;
    RowText(key, value, rest);
    SkipToSolid([], inner);
    assert [] + inner == inner;
    Brackets(text, inner, nesting, strtod);
  }

  lemma RowText(key: string, value: string, rest: string)
    ensures var text := "{" + (key + "," + (value + "}")) + rest;
            text != [] && text[0] == '{' && text[1..] == key + ("," + (value + ("}" + rest)))
  {
  }

  lemma {:induction false} RowsParse(items: seq<Item<string>>, nesting: nat, before: seq<Value>, rest: string,
                                     strtod: Strtod)
    requires items != [] && (forall x :: x in items ==> PlainItem(x)) && nesting + 1 <= MAX_NESTING
    ensures ParseElements(Rows(items) + ("]" + rest), nesting, before, strtod) == Done(before + Pairs(items), rest)
    decreases |items|
  {
    hide ParseElements, ParseValue, Row, Pair, PlainItem;
    var x, close := items[0], "]" + rest;
    assert x in items;
    RowsSplit(items, close);
    PairsSplit(items, before);
    if |items| == 1 {
      hide Rows, Pairs;
      RowParses(x, nesting, close, strtod);
      ElementStep(Row(x) + close, Pair(x), close, rest, nesting, before, strtod);
    } else {
      var more := Rows(items[1..]) + close;
      RowsStart(items[1..], close);
      RowsParse(items[1..], nesting, before + [Pair(x)], rest, strtod);
      hide Rows, Pairs, Solid;
      RowParses(x, nesting, "," + more, strtod);
      ElementStep(Row(x) + ("," + more), Pair(x), "," + more, more, nesting, before, strtod);
    }
  }

  lemma RowsSplit(items: seq<Item<string>>, close: string)
    requires items != []
    ensures |items| == 1 ==> Rows(items) + close == Row(items[0]) + close
    ensures |items| > 1 ==> Rows(items) + close == Row(items[0]) + ("," + (Rows(items[1..]) + close))
  {
    hide Row;
    if |items| > 1 {
      var first, more := Row(items[0]), Rows(items[1..]);
      assert Rows(items) == first + ("," + more);
      Associate(first, "," + more, close);
      Associate(",", more, close);
    } else {
      assert Row(items[0]) + [] == Row(items[0]);
    }
  }

  lemma PairsSplit(items: seq<Item<string>>, before: seq<Value>)
    requires items != []
    ensures |items| == 1 ==> before + Pairs(items) == before + [Pair(items[0])]
    ensures before + [Pair(items[0])] + Pairs(items[1..]) == before + Pairs(items)
  {
    hide Pair;
    assert Pairs(items) == [Pair(items[0])] + Pairs(items[1..]);
  }

  lemma RowsStart(items: seq<Item<string>>, rest: string)
    requires items != []
    ensures Starts(Rows(items) + rest, '{') && Solid(Rows(items) + rest)
  {
  }

  /** With plain keys and values the enclave parses exactly the pairs that the peer sent, in order. */
  lemma AnswerParses(items: seq<Item<string>>, strtod: Strtod)
    requires forall x :: x in items ==> PlainItem(x)
    ensures ParseString(AnswerText(items), strtod) == Some(Array(Pairs(items)))
  {
    hide ParseValue, ParseElements, Rows, Pairs;
    var text := AnswerText(items);
    AnswerStarts(items);
    if items == [] {
      Brackets(text, "]", 0, strtod);
      assert Pairs(items) == [] by { NoPairs(); }
    } else {
      RowsParse(items, 1, [], [], strtod);
      var inner := Rows(items) + "]";
      assert "]" + [] == "]" && [] + Pairs(items) == Pairs(items);
      Brackets(text, inner, 0, strtod);
    }
  }

  lemma NoPairs()
    ensures Pairs([]) == []
  {
  }

  lemma CloseIsSolid()
    ensures SkipSpace("]") == "]"
  {
  }

  lemma AnswerStarts(items: seq<Item<string>>)
    ensures Starts(AnswerText(items), '[')
    ensures var inner := SkipSpace(AnswerText(items)[1..]);
            inner == Rows(items) + "]" && (items == [] ==> inner == "]") && (items != [] ==> Starts(inner, '{'))
  {
    var inner := Rows(items) + "]";
    assert AnswerText(items)[1..] == inner;
    if items == [] {
      assert inner == "]";
      CloseIsSolid();
    } else {
      RowsStart(items, "]");
      SkipToSolid([], inner);
      assert [] + inner == inner;
    }
  }
}
