/** The written forms of JSON texts: escapes, indentation and layout, and what a string may hold (parson.c). */
module JsonForms {
  import opened Basics
  import opened Json
  import opened JsonUnicode

  // ----- printed forms -----

  /** Eight characters have short escapes, other control characters four hexadecimal digits, and no other has any. */
  lemma EscapeExactly(c: char)
    ensures Escape('\"') == "\\\"" && Escape('\\') == "\\\\" && Escape('/') == "\\/"
    ensures Escape(8 as char) == "\\b" && Escape(12 as char) == "\\f"
    ensures Escape('\n') == "\\n" && Escape('\r') == "\\r" && Escape('\t') == "\\t"
    ensures |Escape(c)| == 6 <==> c < ' ' && c !in {8 as char, 12 as char, '\n', '\r', '\t'}
    ensures |Escape(c)| == 6 ==>
              && Escape(c)[..4] == "\\u00"
              && HexValue(Escape(c)[4]) * 16 + HexValue(Escape(c)[5]) == c as int
    ensures Escape(c) == [c] <==> c >= ' ' && c != '\"' && c != '\\' && c != '/'
  {
    if c < ' ' {
      DigitOf(c as int / 16);
      DigitOf(c as int % 16);
      hide HexDigit, HexValue;
    }
  }

  lemma DigitOf(n: nat)
    requires n < 16
    ensures HexValue(HexDigit(n)) == n
  {
  }

  lemma {:induction false} IndentExactly(level: nat)
    ensures |Indent(level)| == 4 * level && forall i :: 0 <= i < |Indent(level)| ==> Indent(level)[i] == ' '
  {
    if level > 0 {
      IndentExactly(level - 1);
    }
  }

  lemma TwoElements(x: Value, y: Value, level: nat, pretty: bool)
    ensures PrintElements([x, y], level, pretty) ==
            PrintElement(x, level + 1, pretty) + Separator(false, pretty)
            + (PrintElement(y, level + 1, pretty) + Separator(true, pretty))
  {
    hide PrintElement, Separator;
    assert [x, y][1..] == [y] && [y][1..] == [];
    assert PrintElements([], level, pretty) == [];
    assert PrintElements([y], level, pretty) == PrintElement(y, level + 1, pretty) + Separator(true, pretty);
  }

  lemma AroundElements(es: seq<Value>, level: nat)
    requires es != []
    ensures Print(Array(es), level, true) == "[" + "\n" + PrintElements(es, level, true) + Indent(level) + "]"
    ensures Print(Array(es), level, false) == "[" + PrintElements(es, level, false) + "]"
  {
    hide PrintElements, Indent;
  }

  lemma ElementForms(x: Value, level: nat)
    ensures PrintElement(x, level, true) == Indent(level) + Print(x, level, true)
    ensures PrintElement(x, level, false) == Print(x, level, false)
    ensures Separator(true, true) == "\n" && Separator(false, true) == ",\n"
    ensures Separator(true, false) == [] && Separator(false, false) == ","
  {
    hide Print, Indent;
  }

  /** Elements stand one per line, indented one level deeper, or side by side; a comma follows all but the last. */
  lemma ArrayLayout(x: Value, y: Value, level: nat)
    ensures Print(Array([x, y]), level, true) ==
            "[" + "\n" + (Indent(level + 1) + Print(x, level + 1, true) + ",\n"
                          + (Indent(level + 1) + Print(y, level + 1, true) + "\n")) + Indent(level) + "]"
    ensures Print(Array([x, y]), level, false) ==
            "[" + (Print(x, level + 1, false) + "," + Print(y, level + 1, false)) + "]"
  {
    hide Print, PrintElements, PrintElement, Separator, Indent;
    TwoElements(x, y, level, true);
    TwoElements(x, y, level, false);
    AroundElements([x, y], level);
    ElementForms(x, level + 1);
    ElementForms(y, level + 1);
  }

  lemma TwoMembers(m: Member, n: Member, level: nat, pretty: bool)
    ensures PrintMembers([m, n], level, pretty) ==
            PrintMember(m, level + 1, pretty) + Separator(false, pretty)
            + (PrintMember(n, level + 1, pretty) + Separator(true, pretty))
  {
    hide PrintMember, Separator;
    assert [m, n][1..] == [n] && [n][1..] == [];
    assert PrintMembers([], level, pretty) == [];
    assert PrintMembers([n], level, pretty) == PrintMember(n, level + 1, pretty) + Separator(true, pretty);
  }

  lemma AroundMembers(ms: seq<Member>, level: nat)
    requires ms != []
    ensures Print(Object(ms), level, true) == "{" + "\n" + PrintMembers(ms, level, true) + Indent(level) + "}"
    ensures Print(Object(ms), level, false) == "{" + PrintMembers(ms, level, false) + "}"
  {
    hide PrintMembers, Indent;
  }

  /** A name stands before its value, with a colon, and in the pretty form a blank, between them. */
  lemma MemberForms(m: Member, level: nat)
    ensures PrintMember(m, level, true) == Indent(level) + Quote(m.name) + ":" + " " + Print(m.value, level, true)
    ensures PrintMember(m, level, false) == Quote(m.name) + ":" + Print(m.value, level, false)
  {
    hide Print, Indent, Quote;
  }

  /** Members stand one per line, indented one level deeper, or side by side; a comma follows all but the last. */
  lemma ObjectLayout(m: Member, n: Member, level: nat)
    ensures Print(Object([m, n]), level, true) ==
            "{" + "\n" + (PrintMember(m, level + 1, true) + ",\n" + (PrintMember(n, level + 1, true) + "\n"))
            + Indent(level) + "}"
    ensures Print(Object([m, n]), level, false) ==
            "{" + (PrintMember(m, level + 1, false) + "," + PrintMember(n, level + 1, false)) + "}"
  {
    hide Print, PrintMembers, PrintMember, Separator, Indent;
    TwoMembers(m, n, level, true);
    TwoMembers(m, n, level, false);
    AroundMembers([m, n], level);
    ElementForms(m.value, level);
  }

  // ----- accepted strings -----

  /** What one step over a quoted string takes from it. */
  lemma StepForms(s: string)
    requires s != [] && NextChar(s).Done?
    ensures var n := |s| - |NextChar(s).rest|;
            && 1 <= n <= |s| && NextChar(s).rest == s[n..]
            && (forall i :: 0 <= i < n ==> s[i] >= ' ')
            && (s[0] == '\\' ==> n >= 2 && s[1] in "\"\\/bfnrtu")
            && (s[0] != '\\' ==> n == 1 && NextChar(s).result == [s[0]])
  {
    if s[0] == '\\' && s[1] == 'u' {
      UnitForms(s);
    }
  }

  lemma HexPlain(s: string)
    requires Hex4(s).Some?
    ensures |s| >= 4 && forall i :: 0 <= i < 4 ==> s[i] >= ' '
  {
  }

  lemma UnitForms(s: string)
    requires |s| >= 2 && s[0] == '\\' && s[1] == 'u' && NextChar(s).Done?
    ensures var n := |s| - |NextChar(s).rest|;
            2 <= n <= |s| && NextChar(s).rest == s[n..] && forall i :: 0 <= i < n ==> s[i] >= ' '
  {
    var t := s[2..];
    HexPlain(t);
    assert forall i :: 2 <= i < 6 ==> s[i] == t[i - 2];
    if 0xD800 <= Hex4(t).value <= 0xDFFF {
      HexPlain(t[6..]);
      assert forall i :: 8 <= i < 12 ==> s[i] == t[6..][i - 8];
      assert s[6] == t[4] && s[7] == t[5] && t[10..] == s[12..];
    } else {
      assert t[4..] == s[6..];
    }
  }

  /** An accepted string holds no control character as it is. */
  lemma {:induction false} NoRawControls(s: string)
    requires Unescape(s).Some?
    ensures forall i :: 0 <= i < |s| ==> s[i] >= ' '
    decreases |s|
  {
    if s != [] {
      StepForms(s);
      var n := |s| - |NextChar(s).rest|;
      assert Unescape(s[n..]).Some?;
      hide NextChar, Unescape;
      NoRawControls(s[n..]);
      assert forall i :: n <= i < |s| ==> s[i] == s[n..][i - n];
    }
  }

  /** A string without backslashes is accepted exactly when it holds no control character; it stands for itself. */
  lemma {:induction false} PlainExactly(s: string)
    requires '\\' !in s
    ensures Unescape(s).Some? <==> forall i :: 0 <= i < |s| ==> s[i] >= ' '
    ensures Unescape(s).Some? ==> Unescape(s).value == s
  {
    if s != [] {
      PlainExactly(s[1..]);
      assert s == [s[0]] + s[1..];
    }
  }

  /** A byte order mark before a text makes no difference. */
  lemma MarkIsSkipped(s: string, strtod: Strtod)
    ensures var mark := [0xEF as char, 0xBB as char, 0xBF as char];
            !(mark <= s) ==> ParseString(mark + s, strtod) == ParseString(s, strtod)
  {
    var mark := [0xEF as char, 0xBB as char, 0xBF as char];
    assert (mark + s)[3..] == s;
  }
}
