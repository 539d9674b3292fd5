/**
 * The grammar of JSON texts (RFC 8259) as trees with their white space: the parser accepts texts of the grammar only,
 * with the value they stand for, and all of them up to the nesting limit (common/json/parson.c).
 */
module JsonGrammar {
  import opened Basics
  import opened Json
  import opened JsonRoundTrip

  datatype Tree =
    | Word(value: Value)
    | Digits(text: string)
    | Quoted(body: string)
    | List(blank: string, items: seq<Item>)
    | Record(blank: string, entries: seq<Entry>)

  /** An element with the white space around it. */
  datatype Item = Item(before: string, tree: Tree, after: string)

  /** A member with the white space before its name, around its colon and after its value. */
  datatype Entry = Entry(before: string, name: string, colon: string, gap: string, tree: Tree, after: string)

  // ----- text and value of a tree -----

  // A text is given together with what follows it.

  function Enquoted(body: string, rest: string): string {
    "\"" + (body + ("\"" + rest))
  }

  function WordText(v: Value): string {
    if v == Bool(true) then "true" else if v == Bool(false) then "false" else "null"
  }

  function TextOf(t: Tree, rest: string): string
    decreases t, 0
  {
    match t
    case Word(v) => WordText(v) + rest
    case Digits(text) => text + rest
    case Quoted(body) => Enquoted(body, rest)
    case List(blank, items) => "[" + if items == [] then blank + ("]" + rest) else ItemsText(items, "]" + rest)
    case Record(blank, entries) =>
      "{" + if entries == [] then blank + ("}" + rest) else EntriesText(entries, "}" + rest)
  }

  function ItemsText(items: seq<Item>, rest: string): string
    decreases items, 0
  {
    if items == [] then rest
    else
      var more := if |items| == 1 then rest else "," + ItemsText(items[1..], rest);
      items[0].before + TextOf(items[0].tree, items[0].after + more)
  }

  function EntryText(e: Entry, rest: string): string
    decreases e, 0
  {
    e.before + Enquoted(e.name, e.colon + (":" + (e.gap + TextOf(e.tree, e.after + rest))))
  }

  function EntriesText(entries: seq<Entry>, rest: string): string
    decreases entries, 0
  {
    if entries == [] then rest
    else EntryText(entries[0], if |entries| == 1 then rest else "," + EntriesText(entries[1..], rest))
  }

  /** What a quoted text stands for, as a C string. */
  function Reading(body: string): string {
    match Unescape(body) case Some(s) => CString(s) case None => []
  }

  function ValueOf(t: Tree): Value
    decreases t, 0
  {
    match t
    case Word(v) => v
    case Digits(text) => Number(text)
    case Quoted(body) => Text(Reading(body))
    case List(_, items) => Array(ItemValues(items))
    case Record(_, entries) => Object(EntryMembers(entries))
  }

  function ItemValues(items: seq<Item>): (vs: seq<Value>)
    ensures |vs| == |items|
    decreases items, 0
  {
    if items == [] then [] else [ValueOf(items[0].tree)] + ItemValues(items[1..])
  }

  function EntryMembers(entries: seq<Entry>): (ms: seq<Member>)
    ensures |ms| == |entries|
    decreases entries, 0
  {
    if entries == [] then []
    else [Member(Reading(entries[0].name), ValueOf(entries[0].tree))] + EntryMembers(entries[1..])
  }

  // ----- trees of the grammar -----

  /** The body of a quoted text: no quote in it but escaped ones, and only known escapes. */
  predicate Closed(body: string) {
    ToQuote(body + "\"") == Some(|body|) && Unescape(body).Some?
  }

  /** What strtod may consume where a number can start; nothing at all, too. */
  predicate NumberText(text: string) {
    IsDecimal(text) && (text == [] || text[0] == '-' || '0' <= text[0] <= '9')
  }

  predicate Legit(t: Tree)
    decreases t, 0
  {
    match t
    case Word(v) => v.Null? || v.Bool?
    case Digits(text) => NumberText(text)
    case Quoted(body) => Closed(body)
    case List(blank, items) => AllSpace(blank) && LegitItems(items)
    case Record(blank, entries) => AllSpace(blank) && LegitEntries(entries) && UniqueNames(EntryMembers(entries))
  }

  predicate LegitItems(items: seq<Item>)
    decreases items, 0
  {
    items != [] ==>
      && AllSpace(items[0].before) && Legit(items[0].tree) && AllSpace(items[0].after)
      && LegitItems(items[1..])
  }

  predicate LegitEntries(entries: seq<Entry>)
    decreases entries, 0
  {
    entries != [] ==>
      && AllSpace(entries[0].before) && Closed(entries[0].name) && AllSpace(entries[0].colon)
      && AllSpace(entries[0].gap) && Legit(entries[0].tree) && AllSpace(entries[0].after)
      && LegitEntries(entries[1..])
  }

  // ----- quotes and white space -----

  /** The closing quote does not depend on what follows it. */
  lemma {:induction false} QuoteAt(s: string, n: nat, more: string)
    requires ToQuote(s) == Some(n)
    ensures n < |s| && ToQuote(s[..n + 1] + more) == Some(n)
    decreases |s|
  {
    var t := s[..n + 1] + more;
    if s[0] != '\"' {
      var k := if s[0] == '\\' then 2 else 1;
      QuoteAt(s[k..], n - k, more);
      assert t[k..] == s[k..][..n - k + 1] + more;
    }
  }

  lemma QuotedIsClosed(s: string)
    requires ParseQuoted(s).Done?
    ensures exists body :: Closed(body) && s == Enquoted(body, ParseQuoted(s).rest)
                           && ParseQuoted(s).result == Reading(body)
  {
    hide Unescape, ToQuote;
    var n := ToQuote(s[1..]).value;
    var body := s[1..n + 1];
    QuoteAt(s[1..], n, []);
    assert s[1..][..n + 1] + [] == body + "\"";
    assert s == Enquoted(body, s[n + 2..]);
    assert Closed(body);
  }

  lemma ClosedIsQuoted(body: string, rest: string)
    requires Closed(body)
    ensures ParseQuoted(Enquoted(body, rest)) == Done(Reading(body), rest)
  {
    hide Unescape, ToQuote;
    var s := Enquoted(body, rest);
    QuoteAt(body + "\"", |body|, rest);
    assert (body + "\"")[..|body| + 1] == body + "\"";
    assert s[1..] == body + "\"" + rest;
    assert s[1..|body| + 1] == body && s[|body| + 2..] == rest;
  }

  lemma {:induction false} Skipped(s: string) returns (w: string)
    ensures AllSpace(w) && s == w + SkipSpace(s)
  {
    if s != [] && IsSpace(s[0]) {
      var w' := Skipped(s[1..]);
      w := [s[0]] + w';
      assert s == [s[0]] + s[1..];
    } else {
      w := [];
      assert s == w + s;
    }
  }

  // ----- what the parser accepts is a text of the grammar -----

  lemma TokenIsSpelled(s: string, token: string)
    requires token <= s
    ensures s == token + s[|token|..]
  {
  }

  lemma ScalarIsSpelled(s: string, nesting: nat, strtod: Strtod) returns (t: Tree)
    requires ParseValue(s, nesting, strtod).Done? && Solid(s) && s[0] != '{' && s[0] != '['
    ensures Legit(t) && s == TextOf(t, ParseValue(s, nesting, strtod).rest)
    ensures ValueOf(t) == ParseValue(s, nesting, strtod).result
  {
    hide ParseMembers, ParseElements, ParseQuoted;
    assert SkipSpace(s) == s;
    var p := ParseValue(s, nesting, strtod);
    if s[0] == '\"' {
      QuotedIsClosed(s);
      var body :| Closed(body) && s == Enquoted(body, ParseQuoted(s).rest) && ParseQuoted(s).result == Reading(body);
      t := Quoted(body);
    } else if s[0] == '-' || '0' <= s[0] <= '9' {
      var n := strtod(s).value;
      t := Digits(s[..n]);
      assert s == s[..n] + s[n..];
    } else {
      t := Word(p.result);
      TokenIsSpelled(s, WordText(p.result));
    }
  }

  /** White space in front of a value is skipped, and then its first character decides. */
  lemma AfterSpace(s: string, nesting: nat, strtod: Strtod)
    ensures ParseValue(s, nesting, strtod) == ParseValue(SkipSpace(s), nesting, strtod)
    ensures SkipSpace(SkipSpace(s)) == SkipSpace(s)
  {
    hide ParseMembers, ParseElements, ParseQuoted, ParseNumber, ParseToken;
    assert SkipSpace(SkipSpace(s)) == SkipSpace(s);
  }

  lemma {:induction false} ValueIsSpelled(s: string, nesting: nat, strtod: Strtod) returns (w: string, t: Tree)
    requires ParseValue(s, nesting, strtod).Done?
    ensures AllSpace(w) && Legit(t) && s == w + TextOf(t, ParseValue(s, nesting, strtod).rest)
    ensures ValueOf(t) == ParseValue(s, nesting, strtod).result
    decreases |s|, 2
  {
    var u := SkipSpace(s);
    AfterSpace(s, nesting, strtod);
    assert u != [];
    w := Skipped(s);
    if u[0] == '[' {
      t := ListIsSpelled(u, nesting, strtod);
    } else if u[0] == '{' {
      t := RecordIsSpelled(u, nesting, strtod);
    } else {
      t := ScalarIsSpelled(u, nesting, strtod);
    }
    hide *;
  }

  /** How an accepted array or object goes on after its bracket. */
  lemma AfterBracket(s: string, nesting: nat, strtod: Strtod)
    requires Solid(s) && ParseValue(s, nesting, strtod).Done?
    ensures var u := SkipSpace(s[1..]);
            && (s[0] == '[' ==>
                  if Starts(u, ']') then ParseValue(s, nesting, strtod) == Done(Array([]), u[1..])
                  else
                    var p := ParseElements(u, nesting + 1, [], strtod);
                    p.Done? && ParseValue(s, nesting, strtod) == Done(Array(p.result), p.rest))
            && (s[0] == '{' ==>
                  if Starts(u, '}') then ParseValue(s, nesting, strtod) == Done(Object([]), u[1..])
                  else
                    var p := ParseMembers(u, nesting + 1, [], strtod);
                    p.Done? && ParseValue(s, nesting, strtod) == Done(Object(p.result), p.rest))
  {
    hide ParseMembers, ParseElements, ParseQuoted, ParseNumber, ParseToken;
    assert SkipSpace(s) == s;
  }

  lemma {:induction false} ListIsSpelled(s: string, nesting: nat, strtod: Strtod) returns (t: Tree)
    requires Solid(s) && s[0] == '[' && ParseValue(s, nesting, strtod).Done?
    ensures Legit(t) && s == TextOf(t, ParseValue(s, nesting, strtod).rest)
    ensures ValueOf(t) == ParseValue(s, nesting, strtod).result
    decreases |s|, 1
  {
    AfterBracket(s, nesting, strtod);
    hide ParseValue, ParseElements, ItemsText, LegitItems, SkipSpace, AllSpace, ItemValues, Legit, TextOf, ValueOf;
    var u := SkipSpace(s[1..]);
    var w := Skipped(s[1..]);
    FirstOff(s, "[");
    if Starts(u, ']') {
      t := List(w, []);
      FirstOff(u, "]");
      EmptyListOf(w, u[1..]);
    } else {
      var rest := ParseElements(u, nesting + 1, [], strtod).rest;
      var items := ElementsAreSpelled(u, nesting + 1, [], strtod);
      var all := BlankBefore(w, items, "]" + rest);
      t := List([], all);
      ListOf(all, rest);
      NoneBefore(ItemValues(items));
    }
  }

  lemma FirstOff(s: string, c: string)
    requires s != [] && c == [s[0]]
    ensures s == c + s[1..]
  {
  }

  lemma NoneBefore<T>(s: seq<T>)
    ensures [] + s == s
  {
  }

  lemma EmptyListOf(w: string, rest: string)
    requires AllSpace(w)
    ensures var t := List(w, []);
            Legit(t) && ValueOf(t) == Array([]) && TextOf(t, rest) == "[" + (w + ("]" + rest))
  {
  }

  lemma ListOf(items: seq<Item>, rest: string)
    requires items != [] && LegitItems(items)
    ensures var t := List([], items);
            && Legit(t) && ValueOf(t) == Array(ItemValues(items))
            && TextOf(t, rest) == "[" + ItemsText(items, "]" + rest)
  {
    hide LegitItems, ItemValues, ItemsText;
  }

  /** More white space in front of the first element. */
  lemma BlankBefore(w: string, items: seq<Item>, rest: string) returns (all: seq<Item>)
    requires AllSpace(w) && LegitItems(items) && items != []
    ensures all != [] && LegitItems(all) && ItemValues(all) == ItemValues(items)
    ensures ItemsText(all, rest) == w + ItemsText(items, rest)
  {
    var first := items[0].(before := w + items[0].before);
    all := [first] + items[1..];
    assert all[1..] == items[1..];
    SpaceAppend(w, items[0].before);
    hide Legit, TextOf, ValueOf, AllSpace;
    var more := if |items| == 1 then rest else "," + ItemsText(items[1..], rest);
    Associate(w, items[0].before, TextOf(items[0].tree, items[0].after + more));
  }

  lemma SpaceAppend(v: string, w: string)
    requires AllSpace(v) && AllSpace(w)
    ensures AllSpace(v + w)
  {
  }

  /** After an element, a comma and more elements, or the closing bracket. */
  lemma AfterElement(s: string, nesting: nat, before: seq<Value>, strtod: Strtod)
    requires ParseElements(s, nesting, before, strtod).Done?
    ensures var p, all := ParseValue(s, nesting, strtod), ParseElements(s, nesting, before, strtod);
            && p.Done?
            && var u := SkipSpace(p.rest);
               if Starts(u, ',') then
                 && u == "," + u[1..] && |SkipSpace(u[1..])| < |s|
                 && all == ParseElements(SkipSpace(u[1..]), nesting, before + [p.result], strtod)
               else u == "]" + u[1..] && all == Done(before + [p.result], u[1..])
  {
    hide ParseValue, SkipSpace;
  }

  lemma {:induction false} ElementsAreSpelled(s: string, nesting: nat, before: seq<Value>, strtod: Strtod)
    returns (items: seq<Item>)
    requires ParseElements(s, nesting, before, strtod).Done?
    ensures items != [] && LegitItems(items)
    ensures s == ItemsText(items, "]" + ParseElements(s, nesting, before, strtod).rest)
    ensures ParseElements(s, nesting, before, strtod).result == before + ItemValues(items)
    decreases |s|, 3
  {
    AfterElement(s, nesting, before, strtod);
    hide ParseValue, ParseElements, SkipSpace, AllSpace, ItemsText, ItemValues, LegitItems, TextOf, Legit, ValueOf;
    var p := ParseValue(s, nesting, strtod);
    var rest := ParseElements(s, nesting, before, strtod).rest;
    var w, t := ValueIsSpelled(s, nesting, strtod);
    var u := SkipSpace(p.rest);
    var after := Skipped(p.rest);
    if Starts(u, ',') {
      var gap := Skipped(u[1..]);
      var more := ElementsAreSpelled(SkipSpace(u[1..]), nesting, before + [p.result], strtod);
      items := OneMore(Item(w, t, after), gap, more, "]" + rest);
      Grouped(before, [p.result], ItemValues(more));
    } else {
      items := OneItem(Item(w, t, after), "]" + rest);
    }
  }

  lemma Grouped<T>(a: seq<T>, b: seq<T>, c: seq<T>)
    ensures (a + b) + c == a + (b + c)
  {
  }

  lemma OneItem(item: Item, rest: string) returns (items: seq<Item>)
    requires AllSpace(item.before) && Legit(item.tree) && AllSpace(item.after)
    ensures items != [] && LegitItems(items) && ItemValues(items) == [ValueOf(item.tree)]
    ensures ItemsText(items, rest) == item.before + TextOf(item.tree, item.after + rest)
  {
    items := [item];
    assert items[1..] == [];
    hide Legit, TextOf, ValueOf, AllSpace;
  }

  /** An element, a comma, white space and more elements. */
  lemma OneMore(item: Item, gap: string, more: seq<Item>, rest: string) returns (items: seq<Item>)
    requires AllSpace(item.before) && Legit(item.tree) && AllSpace(item.after)
    requires AllSpace(gap) && more != [] && LegitItems(more)
    ensures items != [] && LegitItems(items) && ItemValues(items) == [ValueOf(item.tree)] + ItemValues(more)
    ensures ItemsText(items, rest) ==
            item.before + TextOf(item.tree, item.after + ("," + (gap + ItemsText(more, rest))))
  {
    var next := BlankBefore(gap, more, rest);
    items := [item] + next;
    assert items[1..] == next;
    hide Legit, TextOf, ValueOf, AllSpace;
  }

  lemma {:induction false} RecordIsSpelled(s: string, nesting: nat, strtod: Strtod) returns (t: Tree)
    requires Solid(s) && s[0] == '{' && ParseValue(s, nesting, strtod).Done?
    ensures Legit(t) && s == TextOf(t, ParseValue(s, nesting, strtod).rest)
    ensures ValueOf(t) == ParseValue(s, nesting, strtod).result
    decreases |s|, 1
  {
    AfterBracket(s, nesting, strtod);
    hide ParseValue, ParseMembers, EntriesText, LegitEntries, SkipSpace, AllSpace, EntryMembers, Legit, TextOf, ValueOf,
         UniqueNames;
    var u := SkipSpace(s[1..]);
    var w := Skipped(s[1..]);
    FirstOff(s, "{");
    if Starts(u, '}') {
      t := Record(w, []);
      FirstOff(u, "}");
      EmptyRecordOf(w, u[1..]);
    } else {
      var rest := ParseMembers(u, nesting + 1, [], strtod).rest;
      NamesDiffer(u, nesting + 1, strtod);
      var entries := MembersAreSpelled(u, nesting + 1, [], strtod);
      var all := BlankBeforeEntry(w, entries, "}" + rest);
      t := Record([], all);
      NoneBefore(EntryMembers(entries));
      RecordOf(all, rest);
    }
  }

  lemma NamesDiffer(u: string, nesting: nat, strtod: Strtod)
    requires ParseMembers(u, nesting, [], strtod).Done?
    ensures UniqueNames(ParseMembers(u, nesting, [], strtod).result)
  {
    MembersAreSane(u, nesting, [], strtod);
  }

  lemma EmptyRecordOf(w: string, rest: string)
    requires AllSpace(w)
    ensures var t := Record(w, []);
            Legit(t) && ValueOf(t) == Object([]) && TextOf(t, rest) == "{" + (w + ("}" + rest))
  {
  }

  lemma RecordOf(entries: seq<Entry>, rest: string)
    requires entries != [] && LegitEntries(entries) && UniqueNames(EntryMembers(entries))
    ensures var t := Record([], entries);
            && Legit(t) && ValueOf(t) == Object(EntryMembers(entries))
            && TextOf(t, rest) == "{" + EntriesText(entries, "}" + rest)
  {
    hide LegitEntries, EntryMembers, EntriesText, UniqueNames;
  }

  lemma BlankBeforeEntry(w: string, entries: seq<Entry>, rest: string) returns (all: seq<Entry>)
    requires AllSpace(w) && LegitEntries(entries) && entries != []
    ensures all != [] && LegitEntries(all) && EntryMembers(all) == EntryMembers(entries)
    ensures EntriesText(all, rest) == w + EntriesText(entries, rest)
  {
    var e := entries[0];
    var first := e.(before := w + e.before);
    all := [first] + entries[1..];
    assert all[1..] == entries[1..];
    SpaceAppend(w, e.before);
    hide Legit, TextOf, ValueOf, AllSpace, Closed, Enquoted;
    var more := if |entries| == 1 then rest else "," + EntriesText(entries[1..], rest);
    Associate(w, e.before, Enquoted(e.name, e.colon + (":" + (e.gap + TextOf(e.tree, e.after + more)))));
  }

  predicate LegitEntry(e: Entry) {
    && AllSpace(e.before) && Closed(e.name) && AllSpace(e.colon)
    && AllSpace(e.gap) && Legit(e.tree) && AllSpace(e.after)
  }

  lemma OneEntry(e: Entry, rest: string) returns (entries: seq<Entry>)
    requires LegitEntry(e)
    ensures entries != [] && LegitEntries(entries)
    ensures EntryMembers(entries) == [Member(Reading(e.name), ValueOf(e.tree))]
    ensures EntriesText(entries, rest) == EntryText(e, rest)
  {
    entries := [e];
    assert entries[1..] == [];
    hide Legit, ValueOf, AllSpace, Closed, EntryText, Reading;
  }

  lemma OneMoreEntry(e: Entry, gap: string, more: seq<Entry>, rest: string) returns (entries: seq<Entry>)
    requires LegitEntry(e) && AllSpace(gap) && more != [] && LegitEntries(more)
    ensures entries != [] && LegitEntries(entries)
    ensures EntryMembers(entries) == [Member(Reading(e.name), ValueOf(e.tree))] + EntryMembers(more)
    ensures EntriesText(entries, rest) == EntryText(e, "," + (gap + EntriesText(more, rest)))
  {
    var next := BlankBeforeEntry(gap, more, rest);
    entries := [e] + next;
    assert entries[1..] == next;
    hide Legit, ValueOf, AllSpace, Closed, EntryText, Reading;
  }

  /** A member and the white space after it. */
  lemma {:induction false} MemberIsSpelled(s: string, nesting: nat, after: string, u: string, strtod: Strtod)
    returns (e: Entry)
    requires ParseMember(s, nesting, strtod).Done? && ParseMember(s, nesting, strtod).rest == after + u
    requires AllSpace(after)
    ensures LegitEntry(e) && s == EntryText(e, u)
    ensures ParseMember(s, nesting, strtod).result == Member(Reading(e.name), ValueOf(e.tree))
    decreases |s|, 3
  {
    hide ParseValue, ParseQuoted;
    QuotedIsClosed(s);
    var q := ParseQuoted(s);
    var name :| Closed(name) && s == Enquoted(name, q.rest) && q.result == Reading(name);
    var v := SkipSpace(q.rest);
    var colon := Skipped(q.rest);
    var gap, t := ValueIsSpelled(v[1..], nesting, strtod);
    e := Entry([], name, colon, gap, t, after);
    assert v == ":" + v[1..];
    hide Closed, Legit, TextOf, Enquoted, SkipSpace;
    assert s == [] + s;
  }

  lemma AfterMember(s: string, nesting: nat, before: seq<Member>, strtod: Strtod)
    requires ParseMembers(s, nesting, before, strtod).Done?
    ensures var p, all := ParseMember(s, nesting, strtod), ParseMembers(s, nesting, before, strtod);
            && p.Done?
            && var u := SkipSpace(p.rest);
               if Starts(u, ',') then
                 && u == "," + u[1..] && |SkipSpace(u[1..])| < |s|
                 && all == ParseMembers(SkipSpace(u[1..]), nesting, before + [p.result], strtod)
               else u == "}" + u[1..] && all == Done(before + [p.result], u[1..])
  {
    hide ParseMember, SkipSpace;
  }

  lemma {:induction false} MembersAreSpelled(s: string, nesting: nat, before: seq<Member>, strtod: Strtod)
    returns (entries: seq<Entry>)
    requires ParseMembers(s, nesting, before, strtod).Done?
    ensures entries != [] && LegitEntries(entries)
    ensures s == EntriesText(entries, "}" + ParseMembers(s, nesting, before, strtod).rest)
    ensures ParseMembers(s, nesting, before, strtod).result == before + EntryMembers(entries)
    decreases |s|, 4
  {
    AfterMember(s, nesting, before, strtod);
    hide ParseMember, ParseMembers, SkipSpace, AllSpace, EntriesText, EntryMembers, LegitEntries, EntryText, LegitEntry,
         ValueOf, Reading;
    var p := ParseMember(s, nesting, strtod);
    var rest := ParseMembers(s, nesting, before, strtod).rest;
    var u := SkipSpace(p.rest);
    var after := Skipped(p.rest);
    var e := MemberIsSpelled(s, nesting, after, u, strtod);
    if Starts(u, ',') {
      var gap := Skipped(u[1..]);
      var more := MembersAreSpelled(SkipSpace(u[1..]), nesting, before + [p.result], strtod);
      entries := OneMoreEntry(e, gap, more, "}" + rest);
      Grouped(before, [p.result], EntryMembers(more));
    } else {
      entries := OneEntry(e, "}" + rest);
    }
  }

  // ----- every text of the grammar is accepted -----

  /** The numbers of a value are read by strtod, and it is not nested too deeply. */
  ghost predicate Fits(v: Value, nesting: nat, strtod: Strtod) {
    Tokens(v, strtod) && Depth(v) + nesting <= MAX_NESTING
  }

  lemma TextStarts(t: Tree, rest: string, strtod: Strtod)
    requires Legit(t) && Tokens(ValueOf(t), strtod)
    ensures Solid(TextOf(t, rest)) && TextOf(t, rest)[0] != ']' && TextOf(t, rest)[0] as int < 128
  {
    hide ItemsText, EntriesText;
  }

  lemma FitsElements(es: seq<Value>, nesting: nat, strtod: Strtod)
    requires Fits(Array(es), nesting, strtod) && es != []
    ensures forall e :: e in es ==> Fits(e, nesting + 1, strtod)
  {
    forall e | e in es ensures Fits(e, nesting + 1, strtod) {
      var i :| 0 <= i < |es| && es[i] == e;
      ElementSurvives(es, nesting, i);
    }
  }

  lemma FitsMembers(ms: seq<Member>, nesting: nat, strtod: Strtod)
    requires Fits(Object(ms), nesting, strtod) && ms != []
    ensures forall m :: m in ms ==> Fits(m.value, nesting + 1, strtod)
  {
    forall m | m in ms ensures Fits(m.value, nesting + 1, strtod) {
      var i :| 0 <= i < |ms| && ms[i] == m;
      MemberDepthFits(ms, nesting, i);
    }
  }

  lemma WordIsParsed(v: Value, rest: string, nesting: nat, strtod: Strtod)
    requires (v.Null? || v.Bool?) && nesting <= MAX_NESTING
    ensures ParseValue(WordText(v) + rest, nesting, strtod) == Done(v, rest)
  {
    TokenRoundTrip(v, nesting, rest, strtod);
    hide ParseValue;
  }

  lemma QuotedIsParsed(body: string, rest: string, nesting: nat, strtod: Strtod)
    requires Closed(body) && nesting <= MAX_NESTING
    ensures ParseValue(Enquoted(body, rest), nesting, strtod) == Done(Text(Reading(body)), rest)
  {
    hide ParseQuoted, ParseElements, ParseMembers;
    ClosedIsQuoted(body, rest);
    var s := Enquoted(body, rest);
    assert s[0] == '\"' && SkipSpace(s) == s;
  }

  /** White space and then a separator or closing bracket may follow a value. */
  lemma SpaceFollows(w: string, more: string)
    requires AllSpace(w) && more != [] && (more[0] == ',' || more[0] == ']' || more[0] == '}')
    ensures Follows(w + more) && SkipSpace(w + more) == more
  {
    SkipToSolid(w, more);
    assert w == [] ==> w + more == more;
  }

  lemma ElementsStep(s: string, nesting: nat, before: seq<Value>, v: Value, rest: string, strtod: Strtod)
    requires ParseValue(s, nesting, strtod) == Done(v, rest)
    ensures var t := SkipSpace(rest);
            && (Starts(t, ',') ==> ParseElements(s, nesting, before, strtod) ==
                                   ParseElements(SkipSpace(t[1..]), nesting, before + [v], strtod))
            && (Starts(t, ']') ==> ParseElements(s, nesting, before, strtod) == Done(before + [v], t[1..]))
  {
    hide ParseValue, SkipSpace;
  }

  lemma {:induction false} ItemsAreParsed(items: seq<Item>, rest: string, nesting: nat, before: seq<Value>,
                                          strtod: Strtod)
    requires items != [] && LegitItems(items) && forall v :: v in ItemValues(items) ==> Fits(v, nesting, strtod)
    ensures var text := SkipSpace(ItemsText(items, "]" + rest));
            !Starts(text, ']') && ParseElements(text, nesting, before, strtod) == Done(before + ItemValues(items), rest)
    decreases items, 1
  {
    var item, close := items[0], "]" + rest;
    var v := ValueOf(item.tree);
    assert v in ItemValues(items);
    var more := if |items| == 1 then close else "," + ItemsText(items[1..], close);
    var text := TextOf(item.tree, item.after + more);
    TextStarts(item.tree, item.after + more, strtod);
    SkipToSolid(item.before, text);
    SpaceFollows(item.after, more);
    TreeIsParsed(item.tree, item.after + more, nesting, strtod);
    hide Legit, TextOf, ValueOf, ParseValue, SkipSpace, Follows, Fits, AllSpace;
    ElementsStep(text, nesting, before, v, item.after + more, strtod);
    if |items| == 1 {
      assert ItemValues(items) == [v];
      hide ParseElements;
      assert more[1..] == rest;
    } else {
      assert ItemValues(items) == [v] + ItemValues(items[1..]);
      assert more[1..] == ItemsText(items[1..], close);
      ItemsAreParsed(items[1..], rest, nesting, before + [v], strtod);
      hide ParseElements, ItemsText, ItemValues;
      Grouped(before, [v], ItemValues(items[1..]));
    }
  }

  lemma {:induction false} EntryIsParsed(e: Entry, rest: string, nesting: nat, strtod: Strtod)
    requires LegitEntry(e) && Fits(ValueOf(e.tree), nesting, strtod)
    requires rest != [] && (rest[0] == ',' || rest[0] == '}')
    ensures var text := SkipSpace(EntryText(e, rest));
            && Starts(text, '\"')
            && ParseMember(text, nesting, strtod) ==
               Done(Member(Reading(e.name), ValueOf(e.tree)), e.after + rest)
    decreases e, 0
  {
    var tail := e.gap + TextOf(e.tree, e.after + rest);
    var text := Enquoted(e.name, e.colon + (":" + tail));
    SkipToSolid(e.before, text);
    ClosedIsQuoted(e.name, e.colon + (":" + tail));
    SkipToSolid(e.colon, ":" + tail);
    SpaceFollows(e.after, rest);
    TreeIsParsed(e.tree, e.after + rest, nesting, strtod);
    SpaceBeforeValue(e.gap, TextOf(e.tree, e.after + rest), nesting, strtod);
    hide *;
    MemberParts(text, Reading(e.name), e.colon + (":" + tail), tail, nesting, strtod);
  }

  lemma MemberParts(s: string, name: string, afterName: string, tail: string, nesting: nat, strtod: Strtod)
    requires ParseQuoted(s) == Done(name, afterName) && SkipSpace(afterName) == ":" + tail
    requires ParseValue(tail, nesting, strtod).Done?
    ensures var p := ParseValue(tail, nesting, strtod);
            ParseMember(s, nesting, strtod) == Done(Member(name, p.result), p.rest)
  {
    hide ParseQuoted, ParseValue, SkipSpace;
    assert (":" + tail)[1..] == tail;
  }

  lemma MembersStep(s: string, nesting: nat, before: seq<Member>, m: Member, rest: string, strtod: Strtod)
    requires ParseMember(s, nesting, strtod) == Done(m, rest) && !HasName(before, m.name)
    ensures var t := SkipSpace(rest);
            && (Starts(t, ',') ==> ParseMembers(s, nesting, before, strtod) ==
                                   ParseMembers(SkipSpace(t[1..]), nesting, before + [m], strtod))
            && (Starts(t, '}') ==> ParseMembers(s, nesting, before, strtod) == Done(before + [m], t[1..]))
  {
    hide ParseMember, SkipSpace;
  }

  lemma {:induction false} EntriesAreParsed(entries: seq<Entry>, rest: string, nesting: nat, before: seq<Member>,
                                            strtod: Strtod)
    requires entries != [] && LegitEntries(entries) && UniqueNames(before + EntryMembers(entries))
    requires forall m :: m in EntryMembers(entries) ==> Fits(m.value, nesting, strtod)
    ensures var text := SkipSpace(EntriesText(entries, "}" + rest));
            && !Starts(text, '}')
            && ParseMembers(text, nesting, before, strtod) == Done(before + EntryMembers(entries), rest)
    decreases entries, 1
  {
    var e, close := entries[0], "}" + rest;
    var m, ms := Member(Reading(e.name), ValueOf(e.tree)), EntryMembers(entries);
    assert ms[0] == m && m in ms;
    var more := if |entries| == 1 then close else "," + EntriesText(entries[1..], close);
    assert LegitEntry(e);
    EntryIsParsed(e, more, nesting, strtod);
    SpaceFollows(e.after, more);
    NewName(before, ms);
    hide LegitEntry, EntryText, ValueOf, ParseMember, SkipSpace, Follows, Fits, AllSpace, Reading, UniqueNames;
    var text := SkipSpace(EntryText(e, more));
    MembersStep(text, nesting, before, m, e.after + more, strtod);
    if |entries| == 1 {
      assert ms == [m];
      hide ParseMembers;
      assert more[1..] == rest;
    } else {
      var others := EntryMembers(entries[1..]);
      assert ms == [m] + others;
      assert more[1..] == EntriesText(entries[1..], close);
      Grouped(before, [m], others);
      EntriesAreParsed(entries[1..], rest, nesting, before + [m], strtod);
      hide ParseMembers, EntriesText, EntryMembers;
    }
  }

  lemma Behind(c: string, s: string)
    requires |c| == 1
    ensures (c + s)[1..] == s
  {
  }

  lemma ListParts(blank: string, items: seq<Item>, rest: string, nesting: nat, strtod: Strtod)
    requires Legit(List(blank, items)) && Fits(ValueOf(List(blank, items)), nesting, strtod)
    ensures nesting <= MAX_NESTING && ValueOf(List(blank, items)) == Array(ItemValues(items))
    ensures items == [] ==> AllSpace(blank) && TextOf(List(blank, items), rest) == "[" + (blank + ("]" + rest))
    ensures items != [] ==>
              && LegitItems(items) && TextOf(List(blank, items), rest) == "[" + ItemsText(items, "]" + rest)
              && forall v :: v in ItemValues(items) ==> Fits(v, nesting + 1, strtod)
  {
    hide LegitItems, ItemValues, ItemsText, AllSpace;
    if items != [] {
      FitsElements(ItemValues(items), nesting, strtod);
    }
  }

  lemma {:induction false} ListIsParsed(blank: string, items: seq<Item>, rest: string, nesting: nat, strtod: Strtod)
    requires Legit(List(blank, items)) && Fits(ValueOf(List(blank, items)), nesting, strtod)
    ensures ParseValue(TextOf(List(blank, items), rest), nesting, strtod) == Done(ValueOf(List(blank, items)), rest)
    decreases items, 3
  {
    ListParts(blank, items, rest, nesting, strtod);
    hide ParseValue, ParseElements, SkipSpace, AllSpace, Legit, TextOf, ValueOf, Fits, ItemsText, ItemValues,
         LegitItems;
    var text := TextOf(List(blank, items), rest);
    Brackets(text, SkipSpace(text[1..]), nesting, strtod);
    if items == [] {
      Behind("[", blank + ("]" + rest));
      SkipToSolid(blank, "]" + rest);
      Behind("]", rest);
    } else {
      Behind("[", ItemsText(items, "]" + rest));
      NoneBefore(ItemValues(items));
      ItemsAreParsed(items, rest, nesting + 1, [], strtod);
    }
  }

  lemma RecordParts(blank: string, entries: seq<Entry>, rest: string, nesting: nat, strtod: Strtod)
    requires Legit(Record(blank, entries)) && Fits(ValueOf(Record(blank, entries)), nesting, strtod)
    ensures nesting <= MAX_NESTING && ValueOf(Record(blank, entries)) == Object(EntryMembers(entries))
    ensures entries == [] ==> AllSpace(blank) && TextOf(Record(blank, entries), rest) == "{" + (blank + ("}" + rest))
    ensures entries != [] ==>
              && LegitEntries(entries) && UniqueNames(EntryMembers(entries))
              && TextOf(Record(blank, entries), rest) == "{" + EntriesText(entries, "}" + rest)
              && forall m :: m in EntryMembers(entries) ==> Fits(m.value, nesting + 1, strtod)
  {
    hide LegitEntries, UniqueNames, EntryMembers, EntriesText, AllSpace;
    if entries != [] {
      FitsMembers(EntryMembers(entries), nesting, strtod);
    }
  }

  lemma {:induction false} RecordIsParsed(blank: string, entries: seq<Entry>, rest: string, nesting: nat,
                                          strtod: Strtod)
    requires Legit(Record(blank, entries)) && Fits(ValueOf(Record(blank, entries)), nesting, strtod)
    ensures ParseValue(TextOf(Record(blank, entries), rest), nesting, strtod) ==
            Done(ValueOf(Record(blank, entries)), rest)
    decreases entries, 3
  {
    RecordParts(blank, entries, rest, nesting, strtod);
    hide ParseValue, ParseMembers, SkipSpace, UniqueNames, AllSpace, Legit, TextOf, ValueOf, Fits, EntriesText,
         EntryMembers, LegitEntries;
    var text := TextOf(Record(blank, entries), rest);
    Brackets(text, SkipSpace(text[1..]), nesting, strtod);
    if entries == [] {
      Behind("{", blank + ("}" + rest));
      SkipToSolid(blank, "}" + rest);
      Behind("}", rest);
    } else {
      var ms := EntryMembers(entries);
      Behind("{", EntriesText(entries, "}" + rest));
      NoneBefore(ms);
      EntriesAreParsed(entries, rest, nesting + 1, [], strtod);
    }
  }

  lemma {:induction false} TreeIsParsed(t: Tree, rest: string, nesting: nat, strtod: Strtod)
    requires Legit(t) && Fits(ValueOf(t), nesting, strtod) && Follows(rest)
    ensures ParseValue(TextOf(t, rest), nesting, strtod) == Done(ValueOf(t), rest)
    decreases t, 4
  {
    hide ParseValue, Readable, Reading, Closed, Enquoted, WordText;
    match t
    case Word(v) => WordIsParsed(v, rest, nesting, strtod);
    case Digits(text) => NumberRoundTrip(text, nesting, rest, strtod);
    case Quoted(body) => QuotedIsParsed(body, rest, nesting, strtod);
    case List(blank, items) => ListIsParsed(blank, items, rest, nesting, strtod);
    case Record(blank, entries) => RecordIsParsed(blank, entries, rest, nesting, strtod);
  }

  // ----- whole texts -----

  const MARK := [0xEF as char, 0xBB as char, 0xBF as char]

  /**
   * Whatever the parser accepts is, after a byte order mark or none and white space, a text of the grammar for the
   * value that it returns; the rest is ignored.
   */
  lemma AcceptedIsText(s: string, strtod: Strtod) returns (mark: string, w: string, t: Tree, rest: string)
    requires ParseString(s, strtod).Some?
    ensures (mark == [] || mark == MARK) && AllSpace(w) && Legit(t) && s == mark + (w + TextOf(t, rest))
    ensures ParseString(s, strtod) == Some(ValueOf(t)) && Depth(ValueOf(t)) <= 2048
  {
    hide ParseValue, TextOf, Legit, ValueOf, AllSpace;
    mark := if MARK <= s then MARK else [];
    var text := s[|mark|..];
    assert s == mark + text;
    w, t := ValueIsSpelled(text, 0, strtod);
    rest := ParseValue(text, 0, strtod).rest;
    ParsedIsSane(text, 0, strtod);
  }

  lemma UnmarkedStart(w: string, t: Tree, rest: string, strtod: Strtod)
    requires AllSpace(w) && Legit(t) && Tokens(ValueOf(t), strtod)
    ensures !(MARK <= w + TextOf(t, rest))
  {
    TextStarts(t, rest, strtod);
    hide TextOf, Legit, ValueOf;
    var s := w + TextOf(t, rest);
    assert s[0] == if w == [] then TextOf(t, rest)[0] else w[0];
    assert w != [] ==> IsSpace(w[0]);
  }

  /** A text of the grammar, with numbers that strtod reads, is accepted exactly when it is not nested too deeply. */
  lemma TextIsAccepted(mark: string, w: string, t: Tree, rest: string, strtod: Strtod)
    requires (mark == [] || mark == MARK) && AllSpace(w) && Legit(t) && Tokens(ValueOf(t), strtod) && Follows(rest)
    ensures ParseString(mark + (w + TextOf(t, rest)), strtod) == Some(ValueOf(t)) <==> Depth(ValueOf(t)) <= 2048
  {
    hide ParseValue, TextOf, Legit, ValueOf;
    var text := w + TextOf(t, rest);
    UnmarkedStart(w, t, rest, strtod);
    assert mark == [] ==> mark + text == text;
    assert mark == MARK ==> (mark + text)[3..] == text;
    SpaceBeforeValue(w, TextOf(t, rest), 0, strtod);
    ParsedIsSane(text, 0, strtod);
    if Depth(ValueOf(t)) <= 2048 {
      TreeIsParsed(t, rest, 0, strtod);
    }
  }

  // ----- a text and what follows it -----

  /** What follows a text is only appended. */
  lemma {:induction false} TextThenRest(t: Tree, rest: string)
    ensures TextOf(t, rest) == TextOf(t, []) + rest
    decreases t, 0
  {
    match t
    case Word(v) => Associate(WordText(v), [], rest);
    case Digits(text) => Associate(text, [], rest);
    case Quoted(body) => QuotedThenRest(body, rest);
    case List(blank, items) =>
      ClosedThenRest("]", rest);
      if items == [] {
        BlankThenRest("[", blank, "]", rest);
      } else {
        ItemsThenRest(items, "]" + rest);
        ItemsThenRest(items, "]" + []);
        BlankThenRest("[", ItemsText(items, []), "]", rest);
      }
    case Record(blank, entries) =>
      ClosedThenRest("}", rest);
      if entries == [] {
        BlankThenRest("{", blank, "}", rest);
      } else {
        EntriesThenRest(entries, "}" + rest);
        EntriesThenRest(entries, "}" + []);
        BlankThenRest("{", EntriesText(entries, []), "}", rest);
      }
  }

  lemma QuotedThenRest(body: string, rest: string)
    ensures Enquoted(body, rest) == Enquoted(body, []) + rest
  {
  }

  lemma ClosedThenRest(close: string, rest: string)
    ensures close + rest == (close + []) + rest
  {
  }

  lemma BlankThenRest(open: string, blank: string, close: string, rest: string)
    ensures open + (blank + (close + rest)) == (open + (blank + (close + []))) + rest
  {
  }

  lemma {:induction false} ItemsThenRest(items: seq<Item>, rest: string)
    ensures ItemsText(items, rest) == ItemsText(items, []) + rest
    decreases items, 1
  {
    if items == [] {
      NoneBefore(rest);
    } else {
      var item := items[0];
      var tail := if |items| == 1 then [] else "," + ItemsText(items[1..], []);
      if |items| > 1 {
        ItemsThenRest(items[1..], rest);
        Associate(",", ItemsText(items[1..], []), rest);
      } else {
        NoneBefore(rest);
      }
      TextThenRest(item.tree, item.after + tail);
      TextThenRest(item.tree, item.after + (tail + rest));
      hide TextOf;
      Pushed(item.before, TextOf(item.tree, []), item.after, tail, rest);
    }
  }

  lemma Pushed(a: string, b: string, c: string, d: string, e: string)
    ensures a + (b + (c + (d + e))) == (a + (b + (c + d))) + e
  {
  }

  lemma {:induction false} EntriesThenRest(entries: seq<Entry>, rest: string)
    ensures EntriesText(entries, rest) == EntriesText(entries, []) + rest
    decreases entries, 1
  {
    if entries == [] {
      NoneBefore(rest);
    } else {
      var tail := if |entries| == 1 then [] else "," + EntriesText(entries[1..], []);
      if |entries| > 1 {
        EntriesThenRest(entries[1..], rest);
        Associate(",", EntriesText(entries[1..], []), rest);
      } else {
        NoneBefore(rest);
      }
      EntryThenRest(entries[0], tail, rest);
    }
  }

  lemma {:induction false} EntryThenRest(e: Entry, tail: string, rest: string)
    ensures EntryText(e, tail + rest) == EntryText(e, tail) + rest
    decreases e, 0
  {
    TextThenRest(e.tree, e.after + tail);
    TextThenRest(e.tree, e.after + (tail + rest));
    hide TextOf;
    Pushed(e.gap, TextOf(e.tree, []), e.after, tail, rest);
    var value := e.gap + (TextOf(e.tree, []) + (e.after + tail));
    QuotedMoves(e.before, e.name, e.colon, value, rest);
  }

  lemma QuotedMoves(before: string, name: string, colon: string, value: string, rest: string)
    ensures before + Enquoted(name, colon + (":" + (value + rest))) ==
            (before + Enquoted(name, colon + (":" + value))) + rest
  {
    assert colon + (":" + (value + rest)) == (colon + (":" + value)) + rest;
    QuotedThenRest(name, colon + (":" + value));
    QuotedThenRest(name, (colon + (":" + value)) + rest);
    hide Enquoted;
    assert Enquoted(name, []) + ((colon + (":" + value)) + rest) ==
           (Enquoted(name, []) + (colon + (":" + value))) + rest;
  }
}
