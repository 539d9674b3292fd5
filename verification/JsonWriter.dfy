/** The printer at work: one pass that only counts and one that fills a buffer (common/json/parson.c). */
module JsonWriter {
  import opened Basics
  import opened Json

  /** An output position: a buffer to fill, or none when the text is only measured. */
  class Sink {
    const buf: array?<char>
    var total: nat
    ghost var text: string

    ghost predicate Valid()
      reads this, buf
    {
      && total == |text|
      && (buf != null ==> total < buf.Length && buf[..total] == text)
    }

    /** A C string ends here. */
    ghost predicate Ended()
      reads this, buf
    {
      buf != null ==> total < buf.Length && buf[total] == '\0'
    }

    ghost predicate Room(n: nat)
      reads this
    {
      buf != null ==> total + n < buf.Length
    }

    constructor (buf: array?<char>)
      requires buf != null ==> buf.Length > 0
      ensures this.buf == buf && Valid() && text == []
    {
      this.buf, total, text := buf, 0, [];
    }

    /** append_string: the text with its terminator. */
    method Append(s: string)
      requires Valid() && Room(|s|)
      modifies this, buf
      ensures Valid() && Ended() && text == old(text) + s
    {
      if buf != null {
        for i := 0 to |s|
          invariant total == old(total) && text == old(text)
          invariant buf[..total + i] == text + s[..i]
        {
          buf[total + i] := s[i];
          assert buf[..total + i + 1] == text + s[..i] + [s[i]];
        }
        buf[total + |s|] := '\0';
        assert s[..|s|] == s;
      }
      total := total + |s|;
      text := text + s;
    }

    /** A single character, without a terminator. */
    method AppendChar(c: char)
      requires Valid() && Room(1)
      modifies this, buf
      ensures Valid() && text == old(text) + [c]
    {
      if buf != null {
        buf[total] := c;
      }
      total := total + 1;
      text := text + [c];
    }

    /** append_indent. */
    method AppendIndent(level: nat)
      requires Valid() && Room(|Indent(level)|)
      modifies this, buf
      ensures Valid() && text == old(text) + Indent(level)
    {
      var i := level;
      while i > 0
        invariant Valid() && text + Indent(i) == old(text) + Indent(level) && Room(|Indent(i)|)
      {
        ghost var before := text;
        Append("    ");
        i := i - 1;
        assert text + Indent(i) == before + Indent(i + 1);
      }
    }

    /** json_serialize_string. */
    method WriteString(s: string)
      requires Valid() && Room(|Quote(s)|)
      modifies this, buf
      ensures Valid() && Ended() && text == old(text) + Quote(s)
    {
      hide Escape;
      var c := CString(s);
      Append("\"");
      ghost var start := text;
      for i := 0 to |c|
        invariant Valid() && text + EscapeAll(c[i..]) == start + EscapeAll(c)
        invariant Room(|EscapeAll(c[i..])| + 1)
      {
        ghost var before := text;
        var e := Escape(c[i]);
        EscapeHead(c, i);
        if |e| == 1 {
          AppendChar(e[0]);
        } else {
          Append(e);
        }
        assert text == before + e;
        assert text + EscapeAll(c[i + 1..]) == before + (e + EscapeAll(c[i + 1..]));
      }
      assert text == start + EscapeAll(c);
      Append("\"");
      assert text == old(text) + Quote(s);
    }

    /** An optional text. */
    method AppendWhen(condition: bool, s: string)
      requires Valid() && Room(|When(condition, s)|)
      modifies this, buf
      ensures Valid() && text == old(text) + When(condition, s)
    {
      if condition {
        Append(s);
      }
    }

    method IndentWhen(condition: bool, level: nat)
      requires Valid() && Room(|When(condition, Indent(level))|)
      modifies this, buf
      ensures Valid() && text == old(text) + When(condition, Indent(level))
    {
      if condition {
        AppendIndent(level);
      }
    }

    method AppendSeparator(last: bool, pretty: bool)
      requires Valid() && Room(|Separator(last, pretty)|)
      modifies this, buf
      ensures Valid() && text == old(text) + Separator(last, pretty)
    {
      ghost var before := text;
      AppendWhen(!last, ",");
      AppendWhen(pretty, "\n");
      assert text == before + Separator(last, pretty);
    }

    /** json_serialize_to_buffer_r. */
    method WriteValue(v: Value, level: nat, pretty: bool)
      requires Valid() && Room(|Print(v, level, pretty)|)
      modifies this, buf
      ensures Valid() && Ended() && text == old(text) + Print(v, level, pretty)
      decreases v, 0
    {
      hide Quote, Indent, PrintElements, PrintMembers;
      match v
      case Null => Append("null");
      case Bool(b) => Append(if b then "true" else "false");
      case Number(number) => Append(number);
      case Text(s) => WriteString(s);
      case Array(es) => WriteArray(es, level, pretty);
      case Object(ms) => WriteObject(ms, level, pretty);
    }

    method WriteArray(es: seq<Value>, level: nat, pretty: bool)
      requires Valid() && Room(|Print(Array(es), level, pretty)|)
      modifies this, buf
      ensures Valid() && Ended() && text == old(text) + Print(Array(es), level, pretty)
      decreases es, 3
    {
      hide Indent, PrintElements;
      var more := pretty && es != [];
      ghost var before := text;
      Append("[");
      AppendWhen(more, "\n");
      WriteElements(es, level, pretty);
      IndentWhen(more, level);
      Append("]");
      assert text == before + Print(Array(es), level, pretty);
    }

    method WriteObject(ms: seq<Member>, level: nat, pretty: bool)
      requires Valid() && Room(|Print(Object(ms), level, pretty)|)
      modifies this, buf
      ensures Valid() && Ended() && text == old(text) + Print(Object(ms), level, pretty)
      decreases ms, 3
    {
      hide Indent, PrintMembers;
      var more := pretty && ms != [];
      ghost var before := text;
      Append("{");
      AppendWhen(more, "\n");
      WriteMembers(ms, level, pretty);
      IndentWhen(more, level);
      Append("}");
      assert text == before + Print(Object(ms), level, pretty);
    }

    method WriteElement(v: Value, level: nat, pretty: bool)
      requires Valid() && Room(|PrintElement(v, level, pretty)|)
      modifies this, buf
      ensures Valid() && text == old(text) + PrintElement(v, level, pretty)
      decreases v, 1
    {
      hide Print, Indent;
      ghost var before := text;
      IndentWhen(pretty, level);
      WriteValue(v, level, pretty);
      assert text == before + PrintElement(v, level, pretty);
    }

    method WriteElements(es: seq<Value>, level: nat, pretty: bool)
      requires Valid() && Room(|PrintElements(es, level, pretty)|)
      modifies this, buf
      ensures Valid() && text == old(text) + PrintElements(es, level, pretty)
      decreases es, 2
    {
      hide PrintElement, Indent, Separator;
      for i := 0 to |es|
        invariant Valid()
                  && text + PrintElements(es[i..], level, pretty) == old(text) + PrintElements(es, level, pretty)
        invariant Room(|PrintElements(es[i..], level, pretty)|)
      {
        ghost var before, rest := text, PrintElements(es[i + 1..], level, pretty);
        assert es[i..][1..] == es[i + 1..];
        WriteElement(es[i], level + 1, pretty);
        AppendSeparator(i == |es| - 1, pretty);
        assert PrintElements(es[i..], level, pretty) ==
               PrintElement(es[i], level + 1, pretty) + Separator(i == |es| - 1, pretty) + rest;
        assert text + rest == before + PrintElements(es[i..], level, pretty);
      }
      assert es[|es|..] == [];
      assert text + [] == text;
    }

    method WriteMember(m: Member, level: nat, pretty: bool)
      requires Valid() && Room(|PrintMember(m, level, pretty)|)
      modifies this, buf
      ensures Valid() && text == old(text) + PrintMember(m, level, pretty)
      decreases m, 1
    {
      hide Print, Indent, Quote;
      ghost var before := text;
      IndentWhen(pretty, level);
      WriteString(m.name);
      Append(":");
      AppendWhen(pretty, " ");
      WriteValue(m.value, level, pretty);
      assert text == before + PrintMember(m, level, pretty);
    }

    method WriteMembers(ms: seq<Member>, level: nat, pretty: bool)
      requires Valid() && Room(|PrintMembers(ms, level, pretty)|)
      modifies this, buf
      ensures Valid() && text == old(text) + PrintMembers(ms, level, pretty)
      decreases ms, 2
    {
      hide PrintMember, Indent, Separator;
      for i := 0 to |ms|
        invariant Valid() && text + PrintMembers(ms[i..], level, pretty) == old(text) + PrintMembers(ms, level, pretty)
        invariant Room(|PrintMembers(ms[i..], level, pretty)|)
      {
        ghost var before, rest := text, PrintMembers(ms[i + 1..], level, pretty);
        assert ms[i..][1..] == ms[i + 1..];
        WriteMember(ms[i], level + 1, pretty);
        AppendSeparator(i == |ms| - 1, pretty);
        assert PrintMembers(ms[i..], level, pretty) ==
               PrintMember(ms[i], level + 1, pretty) + Separator(i == |ms| - 1, pretty) + rest;
        assert text + rest == before + PrintMembers(ms[i..], level, pretty);
      }
      assert ms[|ms|..] == [];
      assert text + [] == text;
    }
  }

  /** json_serialization_size: the size with the terminator, found by the same pass without a buffer. */
  method SerializationSize(v: Value, pretty: bool) returns (size: nat)
    ensures size == |Print(v, 0, pretty)| + 1
  {
    var sink := new Sink(null);
    sink.WriteValue(v, 0, pretty);
    size := sink.total + 1;
  }

  /** json_serialize_to_buffer: a buffer that is too small is refused. */
  method SerializeToBuffer(v: Value, pretty: bool, buf: array<char>) returns (ok: bool)
    modifies buf
    ensures ok <==> |Print(v, 0, pretty)| < buf.Length
    ensures ok ==> buf[..|Print(v, 0, pretty)|] == Print(v, 0, pretty) && buf[|Print(v, 0, pretty)|] == '\0'
  {
    var needed := SerializationSize(v, pretty);
    if buf.Length < needed {
      return false;
    }
    var sink := new Sink(buf);
    sink.WriteValue(v, 0, pretty);
    return true;
  }

  /** json_serialize_to_string: the counted size is exactly what the text and its terminator fill. */
  method SerializeToString(v: Value, pretty: bool) returns (buf: array<char>)
    ensures fresh(buf) && buf[..] == Print(v, 0, pretty) + "\0"
  {
    var size := SerializationSize(v, pretty);
    buf := new char[size];
    var ok := SerializeToBuffer(v, pretty, buf);
  }

  lemma EscapeHead(c: string, i: nat)
    requires i < |c|
    ensures EscapeAll(c[i..]) == Escape(c[i]) + EscapeAll(c[i + 1..])
  {
    hide Escape;
    assert c[i..][1..] == c[i + 1..];
  }
}
