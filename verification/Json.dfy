/**
 * JSON texts (RFC 8259): the printer, compact and pretty, and the parser (common/json/parson.c). Characters are
 * bytes; the end of a text is the end of its C string. The text of a number is kept as it is.
 */
module Json {
  import opened Basics

  datatype Member = Member(name: string, value: Value)

  datatype Value =
    | Null
    | Bool(b: bool)
    | Number(text: string)
    | Text(s: string)
    | Array(elements: seq<Value>)
    | Object(members: seq<Member>)

  const MAX_NESTING := 2048

  // ----- printing -----

  function HexDigit(n: nat): char
    requires n < 16
  {
    "0123456789abcdef"[n]
  }

  /** How a character is written inside quotes. */
  function Escape(c: char): (r: string) {
    if c == '\"' then "\\\""
    else if c == '\\' then "\\\\"
    else if c == '/' then "\\/"
    else if c == 8 as char then "\\b"
    else if c == 12 as char then "\\f"
    else if c == '\n' then "\\n"
    else if c == '\r' then "\\r"
    else if c == '\t' then "\\t"
    else if c < ' ' then "\\u00" + [HexDigit(c as int / 16), HexDigit(c as int % 16)]
    else [c]
  }

  function EscapeAll(s: string): string {
    if s == [] then [] else Escape(s[0]) + EscapeAll(s[1..])
  }

  /** A quoted string; as a C string it ends at its first NUL. */
  function Quote(s: string): string {
    "\"" + EscapeAll(CString(s)) + "\""
  }

  function Indent(level: nat): string {
    if level == 0 then [] else "    " + Indent(level - 1)
  }

  function When(condition: bool, s: string): string {
    if condition then s else []
  }

  function Print(v: Value, level: nat, pretty: bool): string
    decreases v, 0
  {
    match v
    case Null => "null"
    case Bool(b) => if b then "true" else "false"
    case Number(text) => text
    case Text(s) => Quote(s)
    case Array(es) =>
      "[" + When(pretty && es != [], "\n") + PrintElements(es, level, pretty)
      + When(pretty && es != [], Indent(level)) + "]"
    case Object(ms) =>
      "{" + When(pretty && ms != [], "\n") + PrintMembers(ms, level, pretty)
      + When(pretty && ms != [], Indent(level)) + "}"
  }

  /** What follows a value in a list. */
  function Separator(last: bool, pretty: bool): string {
    When(!last, ",") + When(pretty, "\n")
  }

  function PrintElement(v: Value, level: nat, pretty: bool): string
    decreases v, 1
  {
    When(pretty, Indent(level)) + Print(v, level, pretty)
  }

  function PrintElements(es: seq<Value>, level: nat, pretty: bool): string
    decreases es, 0
  {
    if es == [] then []
    else PrintElement(es[0], level + 1, pretty) + Separator(|es| == 1, pretty) + PrintElements(es[1..], level, pretty)
  }

  function PrintMember(m: Member, level: nat, pretty: bool): string
    decreases m, 0
  {
    When(pretty, Indent(level)) + Quote(m.name) + ":" + When(pretty, " ") + Print(m.value, level, pretty)
  }

  function PrintMembers(ms: seq<Member>, level: nat, pretty: bool): string
    decreases ms, 0
  {
    if ms == [] then []
    else PrintMember(ms[0], level + 1, pretty) + Separator(|ms| == 1, pretty) + PrintMembers(ms[1..], level, pretty)
  }

  // ----- strings -----

  /** What a parser finds: nothing acceptable, or a result and the rest of the text. */
  datatype Parse<+T> = Fail | Done(result: T, rest: string)

  predicate IsSpace(c: char) {
    c == ' ' || 9 <= c as int <= 13
  }

  function SkipSpace(s: string): (r: string)
    ensures |r| <= |s| && (r != [] ==> !IsSpace(r[0]))
  {
    if s != [] && IsSpace(s[0]) then SkipSpace(s[1..]) else s
  }

  /** A position k characters later. */
  function Later(n: Option<nat>, k: nat): Option<nat> {
    if n.None? then None else Some(n.value + k)
  }

  /** The number of characters up to the closing quote. */
  function ToQuote(s: string): (r: Option<nat>)
    ensures r.Some? ==> r.value < |s| && s[r.value] == '\"'
  {
    if s == [] then None
    else if s[0] == '\"' then Some(0)
    else if s[0] == '\\' then
      if |s| < 2 then None else Later(ToQuote(s[2..]), 2)
    else Later(ToQuote(s[1..]), 1)
  }

  function HexValue(c: char): int {
    if '0' <= c <= '9' then c as int - '0' as int
    else if 'a' <= c <= 'f' then c as int - 'a' as int + 10
    else if 'A' <= c <= 'F' then c as int - 'A' as int + 10
    else -1
  }

  /** The value of four hexadecimal digits. */
  function Hex4(s: string): (r: Option<nat>)
    ensures r.Some? ==> |s| >= 4 && r.value < 65536
  {
    if |s| < 4 || HexValue(s[0]) < 0 || HexValue(s[1]) < 0 || HexValue(s[2]) < 0 || HexValue(s[3]) < 0 then None
    else Some(HexValue(s[0]) * 4096 + HexValue(s[1]) * 256 + HexValue(s[2]) * 16 + HexValue(s[3]))
  }

  /** The bytes of a character in UTF-8. */
  function Utf8(cp: nat): string
    requires cp < 0x11_0000
  {
    if cp < 0x80 then [cp as char]
    else if cp < 0x800 then [(0xC0 + cp / 64) as char, (0x80 + cp % 64) as char]
    else if cp < 0x1_0000 then [(0xE0 + cp / 4096) as char, (0x80 + cp / 64 % 64) as char, (0x80 + cp % 64) as char]
    else [(0xF0 + cp / 262144) as char, (0x80 + cp / 4096 % 64) as char, (0x80 + cp / 64 % 64) as char,
          (0x80 + cp % 64) as char]
  }

  /** After backslash and u: one code unit, or a pair of surrogates. */
  function ParseUtf16(s: string): (r: Parse<string>)
    ensures r.Done? ==> |r.rest| < |s|
  {
    match Hex4(s)
    case None => Fail
    case Some(cp) =>
      if cp < 0xD800 || cp > 0xDFFF then Done(Utf8(cp), s[4..])
      else if cp > 0xDBFF then Fail
      else if |s| < 6 || s[4] != '\\' || s[5] != 'u' then Fail
      else
        match Hex4(s[6..])
        case None => Fail
        case Some(trail) =>
          if trail < 0xDC00 || trail > 0xDFFF then Fail
          else Done(Utf8((cp - 0xD800) * 1024 + (trail - 0xDC00) + 0x1_0000), s[10..])
  }

  function Unescaped(c: char): Option<char> {
    if c == '\"' || c == '\\' || c == '/' then Some(c)
    else if c == 'b' then Some(8 as char)
    else if c == 'f' then Some(12 as char)
    else if c == 'n' then Some('\n')
    else if c == 'r' then Some('\r')
    else if c == 't' then Some('\t')
    else None
  }

  /** One character of a quoted string, and what is left. */
  function NextChar(s: string): (r: Parse<string>)
    requires s != []
    ensures r.Done? ==> |r.rest| < |s|
  {
    if s[0] == '\\' then
      if |s| < 2 then Fail
      else if s[1] == 'u' then ParseUtf16(s[2..])
      else match Unescaped(s[1]) case Some(c) => Done([c], s[2..]) case None => Fail
    else if s[0] < ' ' then Fail
    else Done([s[0]], s[1..])
  }

  /** process_string. */
  function Unescape(s: string): Option<string>
    decreases |s|
  {
    if s == [] then Some([])
    else
      match NextChar(s)
      case Fail => None
      case Done(c, rest) =>
        var more := Unescape(rest);
        if more.None? then None else Some(c + more.value)
  }

  /** get_quoted_string; the result is a C string. */
  function ParseQuoted(s: string): (r: Parse<string>)
    ensures r.Done? ==> |r.rest| < |s|
  {
    if s == [] || s[0] != '\"' then Fail
    else
      match ToQuote(s[1..])
      case None => Fail
      case Some(n) =>
        match Unescape(s[1..n + 1])
        case None => Fail
        case Some(t) => Done(CString(t), s[n + 2..])
  }

  // ----- values -----

  /** How many characters strtod consumes; nothing on an error. */
  type Strtod = string -> Option<nat>

  predicate IsDecimal(text: string) {
    && !(|text| > 1 && text[0] == '0' && text[1] != '.')
    && !(|text| > 2 && text[0] == '-' && text[1] == '0' && text[2] != '.')
    && 'x' !in text && 'X' !in text
  }

  /** A minus sign alone is taken for a number with no text, and nothing is consumed. */
  function ParseNumber(s: string, strtod: Strtod): (r: Parse<Value>)
    ensures r.Done? ==> |r.rest| <= |s|
  {
    match strtod(s)
    case None => Fail
    case Some(n) => if n <= |s| && IsDecimal(s[..n]) then Done(Number(s[..n]), s[n..]) else Fail
  }

  function ParseToken(s: string, token: string, v: Value): (r: Parse<Value>)
    requires token != []
    ensures r.Done? ==> |r.rest| < |s|
  {
    if token <= s then Done(v, s[|token|..]) else Fail
  }

  predicate Starts(s: string, c: char) {
    s != [] && s[0] == c
  }

  function ParseValue(s: string, nesting: nat, strtod: Strtod): (r: Parse<Value>)
    ensures r.Done? ==> |r.rest| <= |s|
    decreases |s|, 2
  {
    if nesting > MAX_NESTING then Fail
    else
      var t := SkipSpace(s);
      if t == [] then Fail
      else if t[0] == '{' then
        var u := SkipSpace(t[1..]);
        if Starts(u, '}') then Done(Object([]), u[1..])
        else
          match ParseMembers(u, nesting + 1, [], strtod)
          case Done(ms, rest) => Done(Object(ms), rest)
          case Fail => Fail
      else if t[0] == '[' then
        var u := SkipSpace(t[1..]);
        if Starts(u, ']') then Done(Array([]), u[1..])
        else
          match ParseElements(u, nesting + 1, [], strtod)
          case Done(es, rest) => Done(Array(es), rest)
          case Fail => Fail
      else if t[0] == '\"' then
        match ParseQuoted(t) case Done(x, rest) => Done(Text(x), rest) case Fail => Fail
      else if t[0] == 'f' || t[0] == 't' then
        if "true" <= t then Done(Bool(true), t[4..]) else ParseToken(t, "false", Bool(false))
      else if t[0] == '-' || '0' <= t[0] <= '9' then ParseNumber(t, strtod)
      else if t[0] == 'n' then ParseToken(t, "null", Null)
      else Fail
  }

  /** The elements of an array up to its closing bracket. */
  function ParseElements(s: string, nesting: nat, before: seq<Value>, strtod: Strtod): (r: Parse<seq<Value>>)
    ensures r.Done? ==> |r.rest| < |s|
    decreases |s|, 3
  {
    match ParseValue(s, nesting, strtod)
    case Fail => Fail
    case Done(v, rest) =>
      var t := SkipSpace(rest);
      if Starts(t, ',') then ParseElements(SkipSpace(t[1..]), nesting, before + [v], strtod)
      else if Starts(t, ']') then Done(before + [v], t[1..])
      else Fail
  }

  predicate HasName(ms: seq<Member>, name: string) {
    exists i :: 0 <= i < |ms| && ms[i].name == name
  }

  /** One name and its value. */
  function ParseMember(s: string, nesting: nat, strtod: Strtod): (r: Parse<Member>)
    ensures r.Done? ==> |r.rest| < |s|
    decreases |s|, 3
  {
    match ParseQuoted(s)
    case Fail => Fail
    case Done(name, rest) =>
      var t := SkipSpace(rest);
      if !Starts(t, ':') then Fail
      else match ParseValue(t[1..], nesting, strtod) case Done(v, more) => Done(Member(name, v), more) case Fail => Fail
  }

  /** The members of an object up to its closing brace; a name that is already there is refused. */
  function ParseMembers(s: string, nesting: nat, before: seq<Member>, strtod: Strtod): (r: Parse<seq<Member>>)
    ensures r.Done? ==> |r.rest| < |s|
    decreases |s|, 4
  {
    match ParseMember(s, nesting, strtod)
    case Fail => Fail
    case Done(m, rest) =>
      if HasName(before, m.name) then Fail
      else
        var t := SkipSpace(rest);
        if Starts(t, ',') then ParseMembers(SkipSpace(t[1..]), nesting, before + [m], strtod)
        else if Starts(t, '}') then Done(before + [m], t[1..])
        else Fail
  }

  /** json_parse_string: a byte order mark is skipped, and what follows the value is ignored. */
  function ParseString(s: string, strtod: Strtod): Option<Value> {
    var text := if [0xEF as char, 0xBB as char, 0xBF as char] <= s then s[3..] else s;
    match ParseValue(text, 0, strtod) case Done(v, _) => Some(v) case Fail => None
  }
}
