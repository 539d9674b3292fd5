/** Printing a value and parsing the text gives the value back. */
module JsonRoundTrip {
  import opened Basics
  import opened Json

  // ----- values that survive -----

  predicate UniqueNames(ms: seq<Member>) {
    forall i, j :: 0 <= i < j < |ms| ==> ms[i].name != ms[j].name
  }

  /** No string or name contains a NUL, and no object has two members of one name. */
  predicate Clean(v: Value)
    decreases v
  {
    match v
    case Text(s) => '\0' !in s
    case Array(es) => forall e :: e in es ==> Clean(e)
    case Object(ms) => UniqueNames(ms) && forall m :: m in ms ==> '\0' !in m.name && Clean(m.value)
    case _ => true
  }

  function Max(a: nat, b: nat): nat {
    if a > b then a else b
  }

  /** How deep the values inside a value lie. */
  function Depth(v: Value): nat
    decreases v
  {
    match v
    case Array(es) => if es == [] then 0 else 1 + ElementsDepth(es)
    case Object(ms) => if ms == [] then 0 else 1 + MembersDepth(ms)
    case _ => 0
  }

  function ElementsDepth(es: seq<Value>): nat
    decreases es
  {
    if es == [] then 0 else Max(Depth(es[0]), ElementsDepth(es[1..]))
  }

  function MembersDepth(ms: seq<Member>): nat
    decreases ms
  {
    if ms == [] then 0 else Max(Depth(ms[0].value), MembersDepth(ms[1..]))
  }

  // ----- numbers -----

  /** What the printer puts after a value: nothing, a comma, a closing bracket or white space. */
  predicate Follows(rest: string) {
    rest == [] || rest[0] == ',' || rest[0] == ']' || rest[0] == '}' || IsSpace(rest[0])
  }

  /** A number text that the parser accepts and that strtod consumes whole wherever the printer writes it. */
  ghost predicate Readable(text: string, strtod: Strtod) {
    && text != [] && (text[0] == '-' || '0' <= text[0] <= '9') && IsDecimal(text)
    && forall rest :: Follows(rest) ==> strtod(text + rest) == Some(|text|)
  }

  ghost predicate Tokens(v: Value, strtod: Strtod)
    decreases v
  {
    match v
    case Number(text) => Readable(text, strtod)
    case Array(es) => forall e :: e in es ==> Tokens(e, strtod)
    case Object(ms) => forall m :: m in ms ==> Tokens(m.value, strtod)
    case _ => true
  }

  // ----- strings -----

  predicate IsPlain(c: char) {
    c != '\"' && c != '\\' && c >= ' '
  }

  /** The three forms of an escaped character. */
  lemma EscapeForms(c: char)
    ensures var e := Escape(c);
            || (|e| == 1 && e[0] == c && IsPlain(c))
            || (|e| == 2 && e[0] == '\\' && e[1] != 'u' && Unescaped(e[1]) == Some(c))
            || (|e| == 6 && e[0] == '\\' && e[1] == 'u' && Hex4(e[2..]) == Some(c as int) && c < ' '
                && forall i :: 2 <= i < 6 ==> IsPlain(e[i]))
  {
    var e := Escape(c);
    if |e| == 6 {
      var n := c as int;
      assert e[2..] == ['0', '0', HexDigit(n / 16), HexDigit(n % 16)];
      HexDigits(n / 16);
      HexDigits(n % 16);
    }
  }

  lemma HexDigits(n: nat)
    requires n < 16
    ensures HexValue(HexDigit(n)) == n && IsPlain(HexDigit(n))
  {
  }

  lemma Hex4Front(s: string, rest: string)
    requires |s| == 4
    ensures Hex4(s + rest) == Hex4(s)
  {
  }

  lemma EscapedChar(c: char, rest: string)
    ensures Escape(c) != [] && NextChar(Escape(c) + rest) == Done([c], rest)
  {
    EscapeForms(c);
    hide Escape, Hex4, Unescaped;
    var e := Escape(c);
    var s := e + rest;
    if |e| == 6 {
      assert s[2..] == e[2..] + rest;
      Hex4Front(e[2..], rest);
      assert s[2..][4..] == rest;
    } else if |e| == 2 {
      assert s[2..] == rest;
    } else {
      assert s[1..] == rest;
    }
  }

  lemma {:induction false} UnescapeEscaped(s: string)
    requires '\0' !in s
    ensures Unescape(EscapeAll(s)) == Some(s)
  {
    if s != [] {
      EscapedChar(s[0], EscapeAll(s[1..]));
      UnescapeEscaped(s[1..]);
      hide NextChar, Escape;
      assert s == [s[0]] + s[1..];
    }
  }

  lemma {:induction false} PlainPast(s: string, rest: string)
    requires forall i :: 0 <= i < |s| ==> IsPlain(s[i])
    ensures ToQuote(s + rest) == Later(ToQuote(rest), |s|)
  {
    if s == [] {
      assert s + rest == rest;
    } else {
      assert (s + rest)[1..] == s[1..] + rest;
      PlainPast(s[1..], rest);
    }
  }

  /** No quote inside an escaped character ends the string. */
  lemma ToQuotePast(c: char, rest: string)
    ensures ToQuote(Escape(c) + rest) == Later(ToQuote(rest), |Escape(c)|)
  {
    EscapeForms(c);
    hide Escape, Hex4, Unescaped;
    var e := Escape(c);
    var s := e + rest;
    if |e| == 1 {
      PlainPast(e, rest);
    } else {
      assert s[2..] == e[2..] + rest;
      PlainPast(e[2..], rest);
    }
  }

  lemma {:induction false} ToQuoteEscaped(s: string, tail: string)
    requires Starts(tail, '\"')
    ensures ToQuote(EscapeAll(s) + tail) == Some(|EscapeAll(s)|)
  {
    hide Escape;
    if s == [] {
      assert EscapeAll(s) + tail == tail;
    } else {
      hide ToQuote;
      var more := EscapeAll(s[1..]);
      Associate(Escape(s[0]), more, tail);
      ToQuotePast(s[0], more + tail);
      ToQuoteEscaped(s[1..], tail);
    }
  }

  lemma Associate(a: string, b: string, c: string)
    ensures (a + b) + c == a + (b + c)
  {
  }

  /** A quoted string is read back whatever follows it. */
  lemma QuoteRoundTrip(s: string, rest: string)
    requires '\0' !in s
    ensures ParseQuoted(Quote(s) + rest) == Done(s, rest)
  {
    hide EscapeAll, Unescape, ToQuote;
    var inner := EscapeAll(s);
    var text := Quote(s) + rest;
    assert text[1..] == inner + ("\"" + rest);
    ToQuoteEscaped(s, "\"" + rest);
    assert text[1..|inner| + 1] == inner;
    UnescapeEscaped(s);
    assert text[|inner| + 2..] == rest;
  }

  // ----- white space -----

  predicate AllSpace(s: string) {
    forall i :: 0 <= i < |s| ==> IsSpace(s[i])
  }

  lemma {:induction false} SkipAll(s: string, t: string)
    requires AllSpace(s)
    ensures SkipSpace(s + t) == SkipSpace(t)
  {
    if s == [] {
      assert s + t == t;
    } else {
      assert (s + t)[1..] == s[1..] + t;
      SkipAll(s[1..], t);
    }
  }

  lemma {:induction false} IndentIsSpace(level: nat)
    ensures AllSpace(Indent(level))
  {
    if level > 0 {
      IndentIsSpace(level - 1);
    }
  }

  predicate Solid(s: string) {
    s != [] && !IsSpace(s[0])
  }

  lemma SkipToSolid(s: string, t: string)
    requires AllSpace(s) && Solid(t)
    ensures SkipSpace(s + t) == t
  {
    SkipAll(s, t);
  }

  // ----- lists -----

  /** What follows the last item of a list. */
  function Tail(level: nat, pretty: bool, close: char, rest: string): string {
    When(pretty, Indent(level)) + [close] + rest
  }

  lemma TailCloses(level: nat, pretty: bool, close: char, rest: string)
    requires !IsSpace(close)
    ensures SkipSpace(Tail(level, pretty, close, rest)) == [close] + rest
    ensures SkipSpace(When(pretty, "\n") + Tail(level, pretty, close, rest)) == [close] + rest
  {
    IndentIsSpace(level);
    var t := [close] + rest;
    SkipToSolid(When(pretty, Indent(level)), t);
    assert Tail(level, pretty, close, rest) == When(pretty, Indent(level)) + t;
    SkipAll(When(pretty, "\n"), Tail(level, pretty, close, rest));
  }

  /** One item of a list, what separates it, and the following items. */
  lemma ListStep(level: nat, pretty: bool, item: string, last: bool, more: string, tail: string)
    requires Solid(item)
    requires last ==> more == [] && (pretty || (tail != [] && Follows(tail)))
    ensures var after := Separator(last, pretty) + more + tail;
            && SkipSpace(When(pretty, Indent(level)) + item + Separator(last, pretty) + more + tail) == item + after
            && Follows(after)
            && (last ==> after == When(pretty, "\n") + tail)
            && (!last ==>
                  Starts(after, ',') && SkipSpace(after) == after && SkipSpace(after[1..]) == SkipSpace(more + tail))
  {
    hide SkipSpace, Indent, AllSpace;
    var newline, indent, separator := When(pretty, "\n"), When(pretty, Indent(level)), Separator(last, pretty);
    var after := separator + more + tail;
    SpaceBefore(level, pretty);
    SolidFront(item, after);
    SkipToSolid(indent, item + after);
    Reassociate(indent, item, separator, more, tail);
    if last {
      assert separator == newline;
      assert separator + [] == separator;
    } else {
      Comma(newline, more, tail, separator, after);
    }
  }

  lemma SpaceBefore(level: nat, pretty: bool)
    ensures AllSpace(When(pretty, "\n")) && AllSpace(When(pretty, Indent(level)))
    ensures IsSpace('\n') && !IsSpace(',')
  {
    IndentIsSpace(level);
  }

  lemma SolidFront(s: string, t: string)
    requires Solid(s)
    ensures Solid(s + t)
  {
  }

  lemma Reassociate(a: string, b: string, c: string, d: string, e: string)
    ensures a + b + c + d + e == a + (b + (c + d + e))
  {
  }

  lemma Comma(newline: string, more: string, tail: string, separator: string, after: string)
    requires AllSpace(newline) && separator == "," + newline && after == separator + more + tail
    ensures Starts(after, ',') && SkipSpace(after) == after && SkipSpace(after[1..]) == SkipSpace(more + tail)
  {
    SkipAll(newline, more + tail);
    assert after[1..] == newline + (more + tail);
  }

  // ----- values -----

  lemma PrintStarts(v: Value, level: nat, pretty: bool, strtod: Strtod)
    requires Tokens(v, strtod)
    ensures Solid(Print(v, level, pretty)) && Print(v, level, pretty)[0] != ']'
  {
  }

  ghost predicate Survives(v: Value, nesting: nat, strtod: Strtod) {
    Clean(v) && Tokens(v, strtod) && Depth(v) + nesting <= MAX_NESTING
  }

  lemma TextRoundTrip(x: string, nesting: nat, rest: string, strtod: Strtod)
    requires '\0' !in x && nesting <= MAX_NESTING
    ensures ParseValue(Quote(x) + rest, nesting, strtod) == Done(Text(x), rest)
  {
    hide ParseQuoted, ParseElements, ParseMembers, EscapeAll;
    QuoteRoundTrip(x, rest);
    var t := Quote(x) + rest;
    assert t[0] == '\"' && SkipSpace(t) == t;
  }

  lemma NumberRoundTrip(text: string, nesting: nat, rest: string, strtod: Strtod)
    requires Readable(text, strtod) && Follows(rest) && nesting <= MAX_NESTING
    ensures ParseValue(text + rest, nesting, strtod) == Done(Number(text), rest)
  {
    hide ParseQuoted, ParseElements, ParseMembers;
    var t := text + rest;
    assert strtod(t) == Some(|text|);
    assert t[..|text|] == text && t[|text|..] == rest;
    assert SkipSpace(t) == t;
  }

  lemma TokenRoundTrip(v: Value, nesting: nat, rest: string, strtod: Strtod)
    requires (v.Null? || v.Bool?) && nesting <= MAX_NESTING
    ensures ParseValue(Print(v, 0, false) + rest, nesting, strtod) == Done(v, rest)
  {
    hide ParseQuoted, ParseElements, ParseMembers;
    var text := Print(v, 0, false);
    var t := text + rest;
    assert t[..|text|] == text && t[|text|..] == rest;
    assert t[0] == text[0] && SkipSpace(t) == t;
    assert v == Bool(false) ==> t[0] == 'f' && "true"[0] == 't';
  }

  lemma ScalarRoundTrip(v: Value, level: nat, pretty: bool, nesting: nat, rest: string, strtod: Strtod)
    requires Survives(v, nesting, strtod) && !v.Array? && !v.Object? && Follows(rest)
    ensures ParseValue(Print(v, level, pretty) + rest, nesting, strtod) == Done(v, rest)
  {
    hide ParseValue, Quote, Readable;
    match v
    case Text(x) => TextRoundTrip(x, nesting, rest, strtod);
    case Number(n) => NumberRoundTrip(n, nesting, rest, strtod);
    case _ => TokenRoundTrip(v, nesting, rest, strtod);
  }

  // ----- arrays and objects -----

  lemma {:induction false} ElementsRoundTrip(es: seq<Value>, level: nat, pretty: bool, nesting: nat, before: seq<Value>,
                                             rest: string, strtod: Strtod)
    requires es != [] && (forall e :: e in es ==> Survives(e, nesting, strtod))
    ensures var text := SkipSpace(PrintElements(es, level, pretty) + Tail(level, pretty, ']', rest));
            !Starts(text, ']') && ParseElements(text, nesting, before, strtod) == Done(before + es, rest)
    decreases es, 1
  {
    hide ParseValue, Print, SkipSpace, Survives, Separator, Indent;
    var first, more := Print(es[0], level + 1, pretty), PrintElements(es[1..], level, pretty);
    var tail := Tail(level, pretty, ']', rest);
    var last := |es| == 1;
    assert es[0] in es;
    FirstPrinted(es[0], nesting, level + 1, pretty, strtod);
    TailStarts(level, pretty, ']', rest);
    ListStep(level + 1, pretty, first, last, more, tail);
    var after := Separator(last, pretty) + more + tail;
    RoundTrip(es[0], level + 1, pretty, nesting, after, strtod);
    TailCloses(level, pretty, ']', rest);
    if last {
      assert es == [es[0]];
    } else {
      ElementsRoundTrip(es[1..], level, pretty, nesting, before + [es[0]], rest, strtod);
      assert before + [es[0]] + es[1..] == before + es;
    }
  }

  lemma FirstPrinted(v: Value, nesting: nat, level: nat, pretty: bool, strtod: Strtod)
    requires Survives(v, nesting, strtod)
    ensures Solid(Print(v, level, pretty)) && Print(v, level, pretty)[0] != ']'
  {
    PrintStarts(v, level, pretty, strtod);
  }

  lemma TailStarts(level: nat, pretty: bool, close: char, rest: string)
    requires close == ']' || close == '}'
    ensures pretty || (Tail(level, pretty, close, rest) != [] && Follows(Tail(level, pretty, close, rest)))
  {
  }

  lemma MemberRoundTrip(m: Member, level: nat, pretty: bool, nesting: nat, rest: string, strtod: Strtod)
    requires '\0' !in m.name && Survives(m.value, nesting, strtod) && Follows(rest)
    ensures ParseMember(PrintedMember(m, level, pretty) + rest, nesting, strtod) == Done(m, rest)
    decreases m, 0
  {
    hide ParseValue, ParseQuoted, Quote, Survives;
    var gap, value := When(pretty, " "), Print(m.value, level, pretty);
    var text := PrintedMember(m, level, pretty) + rest;
    var afterName := ":" + gap + value + rest;
    assert text == Quote(m.name) + afterName;
    QuoteRoundTrip(m.name, afterName);
    assert SkipSpace(afterName) == afterName;
    assert afterName[1..] == gap + (value + rest);
    RoundTrip(m.value, level, pretty, nesting, rest, strtod);
    SpaceBeforeValue(gap, value + rest, nesting, strtod);
  }

  /** A member without its indentation. */
  function PrintedMember(m: Member, level: nat, pretty: bool): string {
    Quote(m.name) + ":" + When(pretty, " ") + Print(m.value, level, pretty)
  }

  /** White space before a value does not matter. */
  lemma SpaceBeforeValue(space: string, s: string, nesting: nat, strtod: Strtod)
    requires AllSpace(space)
    ensures ParseValue(space + s, nesting, strtod) == ParseValue(s, nesting, strtod)
  {
    hide ParseElements, ParseMembers, ParseQuoted, ParseNumber, ParseToken;
    SkipAll(space, s);
  }

  ghost predicate MemberSurvives(m: Member, nesting: nat, strtod: Strtod) {
    '\0' !in m.name && Survives(m.value, nesting, strtod)
  }

  lemma {:induction false} MembersRoundTrip(ms: seq<Member>, level: nat, pretty: bool, nesting: nat,
                                            before: seq<Member>, rest: string, strtod: Strtod)
    requires ms != [] && (forall m :: m in ms ==> MemberSurvives(m, nesting, strtod)) && UniqueNames(before + ms)
    ensures var text := SkipSpace(PrintMembers(ms, level, pretty) + Tail(level, pretty, '}', rest));
            !Starts(text, '}') && ParseMembers(text, nesting, before, strtod) == Done(before + ms, rest)
    decreases ms, 1
  {
    hide ParseMember, Print, Quote, SkipSpace, Survives, Separator, Indent;
    var m := ms[0];
    var first, more := PrintedMember(m, level + 1, pretty), PrintMembers(ms[1..], level, pretty);
    var tail := Tail(level, pretty, '}', rest);
    var last := |ms| == 1;
    assert m in ms;
    QuoteStarts(m, level + 1, pretty);
    TailStarts(level, pretty, '}', rest);
    ListStep(level + 1, pretty, first, last, more, tail);
    PrintedIsMember(m, level + 1, pretty);
    var after := Separator(last, pretty) + more + tail;
    MemberRoundTrip(m, level + 1, pretty, nesting, after, strtod);
    TailCloses(level, pretty, '}', rest);
    NewName(before, ms);
    if last {
      assert ms == [m];
    } else {
      assert before + [m] + ms[1..] == before + ms;
      MembersRoundTrip(ms[1..], level, pretty, nesting, before + [m], rest, strtod);
    }
  }

  lemma PrintedIsMember(m: Member, level: nat, pretty: bool)
    ensures PrintMember(m, level, pretty) == When(pretty, Indent(level)) + PrintedMember(m, level, pretty)
  {
  }

  lemma QuoteStarts(m: Member, level: nat, pretty: bool)
    ensures Solid(PrintedMember(m, level, pretty)) && PrintedMember(m, level, pretty)[0] == '\"'
  {
  }

  lemma NewName(before: seq<Member>, ms: seq<Member>)
    requires ms != [] && UniqueNames(before + ms)
    ensures !HasName(before, ms[0].name)
  {
    var all := before + ms;
    assert all[|before|] == ms[0];
    assert forall i :: 0 <= i < |before| ==> all[i] == before[i];
  }

  /** What is between the brackets of a printed list. */
  lemma Bracketed(open: char, close: char, body: string, level: nat, pretty: bool, rest: string)
    ensures var text := [open] + When(pretty, "\n") + body + When(pretty, Indent(level)) + [close] + rest;
            text[0] == open && SkipSpace(text[1..]) == SkipSpace(body + Tail(level, pretty, close, rest))
  {
    hide SkipSpace, Indent;
    var newline, indent := When(pretty, "\n"), When(pretty, Indent(level));
    var text := [open] + newline + body + indent + [close] + rest;
    assert text[1..] == newline + (body + (indent + [close] + rest));
    SkipAll(newline, body + Tail(level, pretty, close, rest));
  }

  lemma {:induction false} ElementSurvives(es: seq<Value>, nesting: nat, i: nat)
    requires i < |es| && 1 + ElementsDepth(es) + nesting <= MAX_NESTING
    ensures Depth(es[i]) + nesting + 1 <= MAX_NESTING
    decreases |es|
  {
    if i > 0 {
      ElementSurvives(es[1..], nesting, i - 1);
    }
  }

  lemma {:induction false} MemberDepthFits(ms: seq<Member>, nesting: nat, i: nat)
    requires i < |ms| && 1 + MembersDepth(ms) + nesting <= MAX_NESTING
    ensures Depth(ms[i].value) + nesting + 1 <= MAX_NESTING
    decreases |ms|
  {
    if i > 0 {
      MemberDepthFits(ms[1..], nesting, i - 1);
    }
  }

  lemma SurvivesNesting(v: Value, nesting: nat, strtod: Strtod)
    requires Survives(v, nesting, strtod)
    ensures nesting <= MAX_NESTING
  {
  }

  lemma ElementsSurvive(es: seq<Value>, nesting: nat, strtod: Strtod)
    requires Survives(Array(es), nesting, strtod) && es != []
    ensures forall e :: e in es ==> Survives(e, nesting + 1, strtod)
  {
    forall e | e in es ensures Survives(e, nesting + 1, strtod) {
      var i :| 0 <= i < |es| && es[i] == e;
      ElementSurvives(es, nesting, i);
    }
  }

  lemma MembersSurvive(ms: seq<Member>, nesting: nat, strtod: Strtod)
    requires Survives(Object(ms), nesting, strtod) && ms != []
    ensures UniqueNames(ms) && forall m :: m in ms ==> MemberSurvives(m, nesting + 1, strtod)
  {
    forall m | m in ms ensures MemberSurvives(m, nesting + 1, strtod) {
      var i :| 0 <= i < |ms| && ms[i] == m;
      MemberDepthFits(ms, nesting, i);
    }
  }

  lemma ArrayRoundTrip(es: seq<Value>, level: nat, pretty: bool, nesting: nat, rest: string, strtod: Strtod)
    requires Survives(Array(es), nesting, strtod)
    ensures ParseValue(Print(Array(es), level, pretty) + rest, nesting, strtod) == Done(Array(es), rest)
    decreases es, 3
  {
    hide ParseElements, PrintElements, ParseValue, Indent, SkipSpace, Survives;
    SurvivesNesting(Array(es), nesting, strtod);
    var text := Print(Array(es), level, pretty) + rest;
    Brackets(text, SkipSpace(text[1..]), nesting, strtod);
    if es == [] {
      EmptyList(level, pretty);
      assert text[1..] == "]" + rest;
      SkipToSolid([], "]" + rest);
      assert [] + ("]" + rest) == "]" + rest;
    } else {
      ElementsSurvive(es, nesting, strtod);
      assert [] + es == es;
      Bracketed('[', ']', PrintElements(es, level, pretty), level, pretty, rest);
      ElementsRoundTrip(es, level, pretty, nesting + 1, [], rest, strtod);
    }
  }

  /** How an object or array is parsed once its bracket is seen. */
  lemma Brackets(s: string, u: string, nesting: nat, strtod: Strtod)
    requires s != [] && u == SkipSpace(s[1..]) && nesting <= MAX_NESTING
    ensures s[0] == '{' && Starts(u, '}') ==> ParseValue(s, nesting, strtod) == Done(Object([]), u[1..])
    ensures s[0] == '[' && Starts(u, ']') ==> ParseValue(s, nesting, strtod) == Done(Array([]), u[1..])
    ensures var p := ParseMembers(u, nesting + 1, [], strtod);
            s[0] == '{' && !Starts(u, '}') && p.Done? ==>
              ParseValue(s, nesting, strtod) == Done(Object(p.result), p.rest)
    ensures var p := ParseElements(u, nesting + 1, [], strtod);
            s[0] == '[' && !Starts(u, ']') && p.Done? ==>
              ParseValue(s, nesting, strtod) == Done(Array(p.result), p.rest)
  {
    hide ParseMembers, ParseElements, ParseQuoted, ParseNumber, ParseToken;
    assert !IsSpace(s[0]) ==> SkipSpace(s) == s;
  }

  lemma EmptyList(level: nat, pretty: bool)
    ensures Print(Array([]), level, pretty) == "[]" && Print(Object([]), level, pretty) == "{}"
  {
  }

  lemma ObjectRoundTrip(ms: seq<Member>, level: nat, pretty: bool, nesting: nat, rest: string, strtod: Strtod)
    requires Survives(Object(ms), nesting, strtod)
    ensures ParseValue(Print(Object(ms), level, pretty) + rest, nesting, strtod) == Done(Object(ms), rest)
    decreases ms, 3
  {
    hide ParseMembers, PrintMembers, ParseValue, Indent, SkipSpace, Survives, UniqueNames;
    SurvivesNesting(Object(ms), nesting, strtod);
    var text := Print(Object(ms), level, pretty) + rest;
    Brackets(text, SkipSpace(text[1..]), nesting, strtod);
    if ms == [] {
      EmptyList(level, pretty);
      assert text[1..] == "}" + rest;
      SkipToSolid([], "}" + rest);
      assert [] + ("}" + rest) == "}" + rest;
    } else {
      MembersSurvive(ms, nesting, strtod);
      assert [] + ms == ms;
      Bracketed('{', '}', PrintMembers(ms, level, pretty), level, pretty, rest);
      MembersRoundTrip(ms, level, pretty, nesting + 1, [], rest, strtod);
    }
  }

  lemma {:induction false} RoundTrip(v: Value, level: nat, pretty: bool, nesting: nat, rest: string, strtod: Strtod)
    requires Survives(v, nesting, strtod) && Follows(rest)
    ensures ParseValue(Print(v, level, pretty) + rest, nesting, strtod) == Done(v, rest)
    decreases v, 4
  {
    hide Survives, ParseValue, Print;
    match v
    case Array(es) => ArrayRoundTrip(es, level, pretty, nesting, rest, strtod);
    case Object(ms) => ObjectRoundTrip(ms, level, pretty, nesting, rest, strtod);
    case _ => ScalarRoundTrip(v, level, pretty, nesting, rest, strtod);
  }

  // ----- what the parser can produce -----

  ghost predicate Sane(v: Value, nesting: nat) {
    Clean(v) && Depth(v) + nesting <= MAX_NESTING
  }

  lemma {:induction false} DepthOfElements(es: seq<Value>, nesting: nat)
    requires forall i :: 0 <= i < |es| ==> Depth(es[i]) + nesting <= MAX_NESTING
    requires nesting <= MAX_NESTING
    ensures ElementsDepth(es) + nesting <= MAX_NESTING
    decreases |es|
  {
    if es != [] {
      DepthOfElements(es[1..], nesting);
    }
  }

  lemma {:induction false} DepthOfMembers(ms: seq<Member>, nesting: nat)
    requires forall i :: 0 <= i < |ms| ==> Depth(ms[i].value) + nesting <= MAX_NESTING
    requires nesting <= MAX_NESTING
    ensures MembersDepth(ms) + nesting <= MAX_NESTING
    decreases |ms|
  {
    if ms != [] {
      DepthOfMembers(ms[1..], nesting);
    }
  }

  /** Everything the parser returns has distinct names, no NULs, and bounded nesting. */
  lemma {:induction false} ParsedIsSane(s: string, nesting: nat, strtod: Strtod)
    ensures var p := ParseValue(s, nesting, strtod); p.Done? ==> Sane(p.result, nesting)
    decreases |s|, 2
  {
    hide ParseMembers, ParseElements, Sane, ParseNumber;
    var t := SkipSpace(s);
    if nesting <= MAX_NESTING && t != [] {
      var u := SkipSpace(t[1..]);
      if t[0] == '{' {
        if !Starts(u, '}') {
          MembersAreSane(u, nesting + 1, [], strtod);
        }
        ObjectIsSane(u, nesting, strtod);
      } else if t[0] == '[' {
        if !Starts(u, ']') {
          ElementsAreSane(u, nesting + 1, [], strtod);
        }
        ArrayIsSane(u, nesting, strtod);
      } else {
        ScalarIsSane(s, nesting, strtod);
      }
    }
  }

  lemma ScalarIsSane(s: string, nesting: nat, strtod: Strtod)
    requires nesting <= MAX_NESTING && var t := SkipSpace(s); t != [] && t[0] != '{' && t[0] != '['
    ensures var p := ParseValue(s, nesting, strtod); p.Done? ==> Sane(p.result, nesting)
  {
    hide ParseMembers, ParseElements;
  }

  lemma ArrayIsSane(u: string, nesting: nat, strtod: Strtod)
    requires nesting <= MAX_NESTING
    requires var p := ParseElements(u, nesting + 1, [], strtod);
             p.Done? && !Starts(u, ']') ==>
               p.result != [] && nesting + 1 <= MAX_NESTING
               && forall i :: 0 <= i < |p.result| ==> Sane(p.result[i], nesting + 1)
    ensures Sane(Array([]), nesting)
    ensures var p := ParseElements(u, nesting + 1, [], strtod);
            p.Done? && !Starts(u, ']') ==> Sane(Array(p.result), nesting)
  {
    hide ParseElements;
    var p := ParseElements(u, nesting + 1, [], strtod);
    if p.Done? && !Starts(u, ']') {
      DepthOfElements(p.result, nesting + 1);
    }
  }

  lemma ObjectIsSane(u: string, nesting: nat, strtod: Strtod)
    requires nesting <= MAX_NESTING
    requires var p := ParseMembers(u, nesting + 1, [], strtod);
             p.Done? && !Starts(u, '}') ==>
               p.result != [] && nesting + 1 <= MAX_NESTING && SaneMembers(p.result, nesting + 1)
    ensures Sane(Object([]), nesting)
    ensures var p := ParseMembers(u, nesting + 1, [], strtod);
            p.Done? && !Starts(u, '}') ==> Sane(Object(p.result), nesting)
  {
    hide ParseMembers;
    var p := ParseMembers(u, nesting + 1, [], strtod);
    if p.Done? && !Starts(u, '}') {
      DepthOfMembers(p.result, nesting + 1);
    }
  }

  lemma {:induction false} ElementsAreSane(s: string, nesting: nat, before: seq<Value>, strtod: Strtod)
    requires forall i :: 0 <= i < |before| ==> Sane(before[i], nesting)
    ensures var p := ParseElements(s, nesting, before, strtod);
            p.Done? ==>
              p.result != [] && nesting <= MAX_NESTING && forall i :: 0 <= i < |p.result| ==> Sane(p.result[i], nesting)
    decreases |s|, 3
  {
    hide ParseValue, Sane;
    ParsedIsSane(s, nesting, strtod);
    var p := ParseValue(s, nesting, strtod);
    if p.Done? {
      SaneNesting(p.result, nesting);
      var t := SkipSpace(p.rest);
      if Starts(t, ',') {
        ElementsAreSane(SkipSpace(t[1..]), nesting, before + [p.result], strtod);
      }
    }
  }

  lemma SaneNesting(v: Value, nesting: nat)
    requires Sane(v, nesting)
    ensures nesting <= MAX_NESTING
  {
  }

  ghost predicate SaneMembers(ms: seq<Member>, nesting: nat) {
    UniqueNames(ms) && forall i :: 0 <= i < |ms| ==> '\0' !in ms[i].name && Sane(ms[i].value, nesting)
  }

  lemma {:induction false} MembersAreSane(s: string, nesting: nat, before: seq<Member>, strtod: Strtod)
    requires SaneMembers(before, nesting)
    ensures var p := ParseMembers(s, nesting, before, strtod);
            p.Done? ==> p.result != [] && nesting <= MAX_NESTING && SaneMembers(p.result, nesting)
    decreases |s|, 4
  {
    hide ParseMember, Sane;
    var p := ParseMember(s, nesting, strtod);
    if p.Done? {
      MemberIsSane(s, nesting, strtod);
      SaneNesting(p.result.value, nesting);
      if !HasName(before, p.result.name) {
        assert SaneMembers(before + [p.result], nesting);
        var t := SkipSpace(p.rest);
        if Starts(t, ',') {
          MembersAreSane(SkipSpace(t[1..]), nesting, before + [p.result], strtod);
        }
      }
    }
  }

  lemma {:induction false} MemberIsSane(s: string, nesting: nat, strtod: Strtod)
    requires ParseMember(s, nesting, strtod).Done?
    ensures var m := ParseMember(s, nesting, strtod).result; '\0' !in m.name && Sane(m.value, nesting)
    decreases |s|, 3
  {
    hide ParseValue, Sane;
    var t := SkipSpace(ParseQuoted(s).rest);
    ParsedIsSane(t[1..], nesting, strtod);
  }

  // ----- the whole text -----

  /**
   * For a value whose numbers are texts of numbers, in both forms: the parser gives back the printed value exactly when
   * its strings and names are free of NULs, its names are unique in every object, and it is not nested too deeply.
   */
  lemma PrintedTextRoundTrip(v: Value, pretty: bool, strtod: Strtod)
    requires Tokens(v, strtod)
    ensures ParseString(Print(v, 0, pretty), strtod) == Some(v) <==> Clean(v) && Depth(v) <= 2048
  {
    hide ParseValue;
    var text := Print(v, 0, pretty);
    NoByteOrderMark(v, pretty, strtod);
    ParsedIsSane(text, 0, strtod);
    if Clean(v) && Depth(v) <= MAX_NESTING {
      RoundTrip(v, 0, pretty, 0, [], strtod);
      assert text + [] == text;
    }
  }

  lemma NoByteOrderMark(v: Value, pretty: bool, strtod: Strtod)
    requires Tokens(v, strtod)
    ensures Print(v, 0, pretty) != [] && Print(v, 0, pretty)[0] as int < 128
  {
  }
}
