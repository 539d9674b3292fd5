/** The parser at work: a position that moves through the text, and objects that grow (common/json/parson.c). */
module JsonParser {
  import opened Basics
  import opened Json

  /** A parsing loop found what the parsing function finds, and stopped where the rest begins. */
  ghost predicate Agrees<T>(s: string, p: Parse<T>, r: Option<T>, end: nat) {
    if r.None? then p.Fail? else end <= |s| && p == Done(r.value, s[end..])
  }

  // ----- objects -----

  const STARTING_CAPACITY := 16

  /** Names and values in two arrays of the same capacity. */
  class JsonObject {
    var names: array<string>
    var values: array<Value>
    var count: nat

    ghost predicate Valid()
      reads this
    {
      count <= names.Length == values.Length
    }

    ghost function Contents(): (ms: seq<Member>)
      requires Valid()
      reads this, names, values
      ensures |ms| == count
    {
      seq(count, i requires 0 <= i < count reads this, names, values requires Valid() => Member(names[i], values[i]))
    }

    constructor ()
      ensures Valid() && Contents() == [] && fresh(names) && fresh(values)
    {
      names := new string[0];
      values := new Value[0];
      count := 0;
    }

    /** json_object_getn_value: is there a member of this name? */
    method Has(name: string) returns (found: bool)
      requires Valid()
      ensures found == HasName(Contents(), name)
    {
      for i := 0 to count
        invariant forall j :: 0 <= j < i ==> names[j] != name
      {
        if names[i] == name {
          assert Contents()[i].name == name;
          return true;
        }
      }
      return false;
    }

    /** json_object_resize. */
    method Resize(capacity: nat)
      requires Valid() && count <= capacity
      modifies this
      ensures Valid() && names.Length == capacity && Contents() == old(Contents())
      ensures fresh(names) && fresh(values)
    {
      var newNames, newValues := new string[capacity], new Value[capacity];
      for i := 0 to count
        invariant Valid() && names == old(names) && values == old(values) && count == old(count)
        invariant forall j :: 0 <= j < i ==> newNames[j] == names[j] && newValues[j] == values[j]
      {
        newNames[i], newValues[i] := names[i], values[i];
      }
      names, values := newNames, newValues;
    }

    /** json_object_add: a name that is already there is refused. */
    method Add(name: string, value: Value) returns (ok: bool)
      requires Valid()
      modifies this, names, values
      ensures Valid() && ok == !HasName(old(Contents()), name)
      ensures Contents() == if ok then old(Contents()) + [Member(name, value)] else old(Contents())
      ensures (names == old(names) && values == old(values)) || (fresh(names) && fresh(values))
    {
      var found := Has(name);
      if found {
        return false;
      }
      if count >= names.Length {
        Resize(if 2 * names.Length > STARTING_CAPACITY then 2 * names.Length else STARTING_CAPACITY);
      }
      names[count], values[count] := name, value;
      count := count + 1;
      return true;
    }

    /** The members in the order in which they were added. */
    method Members() returns (ms: seq<Member>)
      requires Valid()
      ensures ms == Contents()
    {
      ms := [];
      for i := 0 to count
        invariant ms == Contents()[..i]
      {
        ms := ms + [Member(names[i], values[i])];
      }
    }
  }

  // ----- strings -----

  method SkipSpaces(s: string, at: nat) returns (end: nat)
    requires at <= |s|
    ensures at <= end <= |s| && s[end..] == SkipSpace(s[at..])
  {
    end := at;
    while end < |s| && IsSpace(s[end])
      invariant at <= end <= |s| && SkipSpace(s[end..]) == SkipSpace(s[at..])
    {
      assert s[end..][1..] == s[end + 1..];
      end := end + 1;
    }
  }

  lemma QuoteStep(s: string, end: nat)
    requires end <= |s|
    ensures end == |s| ==> ToQuote(s[end..]) == None
    ensures end < |s| && s[end] == '\"' ==> ToQuote(s[end..]) == Some(0)
    ensures end + 1 == |s| && s[end] == '\\' ==> ToQuote(s[end..]) == None
    ensures end + 1 < |s| && s[end] == '\\' ==> ToQuote(s[end..]) == Later(ToQuote(s[end + 2..]), 2)
    ensures end < |s| && s[end] != '\"' && s[end] != '\\' ==> ToQuote(s[end..]) == Later(ToQuote(s[end + 1..]), 1)
  {
    if end < |s| {
      assert s[end..][1..] == s[end + 1..];
    }
    if end + 1 < |s| {
      assert s[end..][2..] == s[end + 2..];
    }
  }

  /** skip_quotes, from behind the opening quote: the number of characters up to the closing one. */
  method SkipQuotes(s: string, at: nat) returns (r: Option<nat>)
    requires at <= |s|
    ensures r == ToQuote(s[at..])
  {
    hide ToQuote;
    var end := at;
    while end < |s| && s[end] != '\"'
      invariant at <= end <= |s| && ToQuote(s[at..]) == Later(ToQuote(s[end..]), end - at)
    {
      QuoteStep(s, end);
      if s[end] == '\\' {
        if end + 1 == |s| {
          return None;
        }
        end := end + 2;
      } else {
        end := end + 1;
      }
    }
    QuoteStep(s, end);
    r := if end < |s| then Some(end - at) else None;
  }

  /** process_string. */
  method ProcessString(input: string) returns (r: Option<string>)
    ensures r == Unescape(input)
  {
    hide NextChar;
    var output: string, rest := "", input;
    assert Unescape(rest).Some? ==> output + Unescape(rest).value == Unescape(rest).value;
    while rest != []
      invariant Unescape(input) == if Unescape(rest).None? then None else Some(output + Unescape(rest).value)
      decreases |rest|
    {
      match NextChar(rest)
      case Fail => return None;
      case Done(c, more) =>
        ghost var before := output;
        output := output + c;
        if Unescape(more).Some? {
          assert output + Unescape(more).value == before + (c + Unescape(more).value);
        }
        rest := more;
    }
    assert output + [] == output;
    return Some(output);
  }

  /** get_quoted_string. */
  method GetQuotedString(s: string, at: nat) returns (r: Option<string>, end: nat)
    requires at <= |s|
    ensures Agrees(s, ParseQuoted(s[at..]), r, end)
  {
    hide ToQuote, Unescape;
    r, end := None, at;
    if at == |s| || s[at] != '\"' {
      return;
    }
    assert s[at..][1..] == s[at + 1..];
    var n := SkipQuotes(s, at + 1);
    if n.None? {
      return;
    }
    assert s[at..][1..n.value + 1] == s[at + 1..at + 1 + n.value];
    assert s[at..][n.value + 2..] == s[at + n.value + 2..];
    var processed := ProcessString(s[at + 1..at + 1 + n.value]);
    if processed.Some? {
      r, end := Some(CString(processed.value)), at + n.value + 2;
    }
  }

  // ----- values -----

  /** parse_value. */
  method ParseValueAt(s: string, at: nat, nesting: nat, strtod: Strtod) returns (r: Option<Value>, end: nat)
    requires at <= |s|
    ensures Agrees(s, ParseValue(s[at..], nesting, strtod), r, end)
    decreases |s| - at, 1
  {
    hide ParseElements, ParseMembers, ParseQuoted, SkipSpace;
    r, end := None, at;
    if nesting > MAX_NESTING {
      return;
    }
    var pos := SkipSpaces(s, at);
    SpaceSkipped(s[at..], nesting, strtod);
    if pos == |s| {
      return;
    }
    var t := s[pos..];
    if t[0] == '{' {
      r, end := ParseObjectAt(s, pos, nesting + 1, strtod);
    } else if t[0] == '[' {
      r, end := ParseArrayAt(s, pos, nesting + 1, strtod);
    } else if t[0] == '\"' {
      var x, after := GetQuotedString(s, pos);
      r, end := if x.Some? then Some(Text(x.value)) else None, after;
    } else {
      r, end := ParseScalar(s, pos, nesting, strtod);
    }
  }

  /** Truth values, numbers and null: everything that does not begin with a bracket or a quote. */
  predicate StartsScalar(t: string) {
    t != [] && !IsSpace(t[0]) && t[0] != '{' && t[0] != '[' && t[0] != '\"'
  }

  /** White space before a value is skipped, so the value is the same without it. */
  lemma SpaceSkipped(s: string, nesting: nat, strtod: Strtod)
    ensures ParseValue(s, nesting, strtod) == ParseValue(SkipSpace(s), nesting, strtod)
  {
    hide ParseElements, ParseMembers, ParseQuoted, ParseNumber, ParseToken;
    assert SkipSpace(SkipSpace(s)) == SkipSpace(s);
  }

  /**
   * parse_boolean_value, parse_number_value and parse_null_value. The value found is the one whose printed form is the
   * consumed text.
   */
  method ParseScalar(s: string, pos: nat, nesting: nat, strtod: Strtod) returns (r: Option<Value>, end: nat)
    requires pos <= |s| && StartsScalar(s[pos..]) && nesting <= MAX_NESTING
    ensures Agrees(s, ParseValue(s[pos..], nesting, strtod), r, end)
    ensures r.Some? ==> pos <= end <= |s| && Print(r.value, 0, false) == s[pos..end]
  {
    hide ParseElements, ParseMembers, ParseQuoted;
    r, end := None, pos;
    var t := s[pos..];
    assert SkipSpace(t) == t;
    if t[0] == 'f' || t[0] == 't' {
      if "true" <= t {
        r, end := Some(Bool(true)), pos + 4;
      } else if "false" <= t {
        r, end := Some(Bool(false)), pos + 5;
      }
    } else if t[0] == '-' || '0' <= t[0] <= '9' {
      var n := strtod(t);
      if n.Some? && n.value <= |t| && IsDecimal(t[..n.value]) {
        r, end := Some(Number(t[..n.value])), pos + n.value;
      }
    } else if t[0] == 'n' {
      if "null" <= t {
        r, end := Some(Null), pos + 4;
      }
    }
    if r.Some? {
      Consumed(s, pos, end);
    }
  }

  lemma Consumed(s: string, pos: nat, end: nat)
    requires pos <= end <= |s|
    ensures s[pos..][end - pos..] == s[end..] && s[pos..][..end - pos] == s[pos..end]
  {
  }

  ghost function ArrayFrom(u: string, nesting: nat, strtod: Strtod): Parse<Value> {
    if Starts(u, ']') then Done(Array([]), u[1..])
    else match ParseElements(u, nesting, [], strtod) case Done(es, rest) => Done(Array(es), rest) case Fail => Fail
  }

  /** parse_array_value. */
  method ParseArrayAt(s: string, at: nat, nesting: nat, strtod: Strtod) returns (r: Option<Value>, end: nat)
    requires at < |s| && s[at] == '['
    ensures Agrees(s, ArrayFrom(SkipSpace(s[at + 1..]), nesting, strtod), r, end)
    decreases |s| - at, 0
  {
    hide ParseValue, SkipSpace;
    r, end := None, at;
    var pos := SkipSpaces(s, at + 1);
    ghost var u := s[pos..];
    if pos < |s| && s[pos] == ']' {
      return Some(Array([])), pos + 1;
    }
    var elements: seq<Value> := [];
    while pos < |s|
      invariant at < pos <= |s|
      invariant ParseElements(s[pos..], nesting, elements, strtod) == ParseElements(u, nesting, [], strtod)
      decreases |s| - pos
    {
      var v, after := ParseValueAt(s, pos, nesting, strtod);
      if v.None? {
        return None, at;
      }
      elements := elements + [v.value];
      pos := SkipSpaces(s, after);
      if pos < |s| && s[pos] == ',' {
        pos := SkipSpaces(s, pos + 1);
      } else if pos < |s| && s[pos] == ']' {
        return Some(Array(elements)), pos + 1;
      } else {
        return None, at;
      }
    }
  }

  ghost function ObjectFrom(u: string, nesting: nat, strtod: Strtod): Parse<Value> {
    if Starts(u, '}') then Done(Object([]), u[1..])
    else match ParseMembers(u, nesting, [], strtod) case Done(ms, rest) => Done(Object(ms), rest) case Fail => Fail
  }

  /** A name, a colon and a value. */
  method ParseMemberAt(s: string, at: nat, nesting: nat, strtod: Strtod) returns (r: Option<Member>, end: nat)
    requires at <= |s|
    ensures Agrees(s, ParseMember(s[at..], nesting, strtod), r, end)
    decreases |s| - at, 2
  {
    hide ParseValue, ParseQuoted, SkipSpace;
    r, end := None, at;
    var name, afterName := GetQuotedString(s, at);
    if name.None? {
      return;
    }
    var pos := SkipSpaces(s, afterName);
    if pos == |s| || s[pos] != ':' {
      return;
    }
    var v, after := ParseValueAt(s, pos + 1, nesting, strtod);
    if v.Some? {
      r, end := Some(Member(name.value, v.value)), after;
    }
  }

  /** The loop over the members of an object. */
  method ParseMembersAt(s: string, at: nat, nesting: nat, strtod: Strtod) returns (r: Option<seq<Member>>, end: nat)
    requires at <= |s|
    ensures Agrees(s, ParseMembers(s[at..], nesting, [], strtod), r, end)
    decreases |s| - at, 3
  {
    hide ParseMember, SkipSpace, HasName;
    r, end := None, at;
    var pos := at;
    var target := new JsonObject();
    ghost var ms: seq<Member> := [];
    while pos < |s|
      invariant at <= pos <= |s|
      invariant target.Valid() && fresh(target) && fresh(target.names) && fresh(target.values)
                && ms == target.Contents()
      invariant ParseMembers(s[pos..], nesting, ms, strtod) == ParseMembers(s[at..], nesting, [], strtod)
      decreases |s| - pos
    {
      var m, after := ParseMemberAt(s, pos, nesting, strtod);
      if m.None? {
        return None, at;
      }
      var ok := target.Add(m.value.name, m.value.value);
      if !ok {
        return None, at;
      }
      ms := ms + [m.value];
      pos := SkipSpaces(s, after);
      if pos == |s| || (s[pos] != ',' && s[pos] != '}') {
        return None, at;
      }
      if s[pos] == '}' {
        var members := Trim(target);
        return Some(members), pos + 1;
      }
      pos := SkipSpaces(s, pos + 1);
    }
    NoMember(nesting, strtod);
  }

  lemma NoMember(nesting: nat, strtod: Strtod)
    ensures ParseMember([], nesting, strtod) == Fail
  {
  }

  /** parse_object_value. */
  method ParseObjectAt(s: string, at: nat, nesting: nat, strtod: Strtod) returns (r: Option<Value>, end: nat)
    requires at < |s| && s[at] == '{'
    ensures Agrees(s, ObjectFrom(SkipSpace(s[at + 1..]), nesting, strtod), r, end)
    decreases |s| - at, 0
  {
    hide ParseMembers, SkipSpace;
    r, end := None, at;
    var pos := SkipSpaces(s, at + 1);
    if pos < |s| && s[pos] == '}' {
      return Some(Object([])), pos + 1;
    }
    var members, after := ParseMembersAt(s, pos, nesting, strtod);
    if members.Some? {
      r, end := Some(Object(members.value)), after;
    }
  }

  /** Trim the finished object to its size. */
  method Trim(target: JsonObject) returns (members: seq<Member>)
    requires target.Valid()
    modifies target
    ensures members == old(target.Contents())
  {
    target.Resize(target.count);
    members := target.Members();
  }

  /** json_parse_string. */
  method ParseText(s: string, strtod: Strtod) returns (r: Option<Value>)
    ensures r == ParseString(s, strtod)
  {
    hide ParseValue;
    var text := if [0xEF as char, 0xBB as char, 0xBF as char] <= s then s[3..] else s;
    var end;
    assert text[0..] == text;
    r, end := ParseValueAt(text, 0, 0, strtod);
  }
}
