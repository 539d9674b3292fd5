/** Number texts: what the printer writes for a number, and what strtod makes of it (common/json/parson.c). */
module JsonNumbers {
  import opened Basics
  import opened Json
  import opened JsonRoundTrip

  predicate IsDigit(c: char) {
    '0' <= c <= '9'
  }

  predicate AllDigits(s: string) {
    forall i :: 0 <= i < |s| ==> IsDigit(s[i])
  }

  /** A number as printf writes it with the format %1.17g. */
  datatype Numeral = Numeral(negative: bool, whole: string, fraction: string, exponent: Option<Exponent>)

  datatype Exponent = Exponent(negative: bool, digits: string)

  function SpellFraction(n: Numeral): string {
    if n.fraction == [] then [] else "." + n.fraction
  }

  function SpellExponent(n: Numeral): string {
    match n.exponent
    case None => []
    case Some(e) => (if e.negative then "e-" else "e+") + e.digits
  }

  function SpellNumber(n: Numeral): string {
    (if n.negative then "-" else "") + n.whole + SpellFraction(n) + SpellExponent(n)
  }

  predicate IsNumeral(n: Numeral) {
    && n.whole != [] && AllDigits(n.whole) && AllDigits(n.fraction)
    && (n.exponent.Some? ==> n.exponent.value.digits != [] && AllDigits(n.exponent.value.digits))
  }

  /** Digits before the point without a superfluous zero; a zero there has a fraction or no exponent. */
  predicate IsPrinted(n: Numeral) {
    && IsNumeral(n)
    && (n.whole[0] == '0' ==> |n.whole| == 1 && (n.fraction != [] || n.exponent.None?))
  }

  // ----- the decimal numbers of strtod -----

  function DigitRun(s: string): (n: nat)
    ensures n <= |s|
  {
    if s == [] || !IsDigit(s[0]) then 0 else 1 + DigitRun(s[1..])
  }

  function SignRun(s: string): (n: nat)
    ensures n <= |s|
  {
    if s != [] && (s[0] == '-' || s[0] == '+') then 1 else 0
  }

  /** A point and the digits after it. */
  function FractionRun(s: string): (n: nat)
    ensures n <= |s|
  {
    if Starts(s, '.') then 1 + DigitRun(s[1..]) else 0
  }

  /** An exponent counts only with at least one digit. */
  function ExponentRun(s: string): (n: nat)
    ensures n <= |s|
  {
    if !Starts(s, 'e') && !Starts(s, 'E') then 0
    else
      var sign := SignRun(s[1..]);
      var digits := DigitRun(s[1 + sign..]);
      if digits == 0 then 0 else 1 + sign + digits
  }

  /** The longest decimal number at the beginning of a text, as strtod reads it when no range error occurs. */
  function LongestDecimal(s: string): Option<nat> {
    var sign := SignRun(s);
    var unsigned := UnsignedRun(s[sign..]);
    Some(if unsigned == 0 then 0 else sign + unsigned)
  }

  /** A number without its sign; it has a digit before or after the point. */
  function UnsignedRun(t: string): nat {
    var whole := DigitRun(t);
    var fraction := FractionRun(t[whole..]);
    if whole == 0 && fraction <= 1 then 0 else whole + fraction + ExponentRun(t[whole + fraction..])
  }

  lemma {:induction false} DigitRunOf(digits: string, rest: string)
    requires AllDigits(digits) && (rest == [] || !IsDigit(rest[0]))
    ensures DigitRun(digits + rest) == |digits|
  {
    if digits == [] {
      assert digits + rest == rest;
    } else {
      assert (digits + rest)[1..] == digits[1..] + rest;
      DigitRunOf(digits[1..], rest);
    }
  }

  /** Nothing that follows a printed value continues a number. */
  predicate Ends(rest: string) {
    rest == [] || (!IsDigit(rest[0]) && rest[0] != '.' && rest[0] != 'e' && rest[0] != 'E')
  }

  lemma ExponentRunOf(n: Numeral, rest: string)
    requires IsPrinted(n) && Ends(rest)
    ensures ExponentRun(SpellExponent(n) + rest) == |SpellExponent(n)|
  {
    if n.exponent.None? {
      assert SpellExponent(n) + rest == rest;
    } else {
      var digits := n.exponent.value.digits;
      var s := SpellExponent(n) + rest;
      assert s[1..][0] == s[1];
      assert s[2..] == digits + rest;
      DigitRunOf(digits, rest);
    }
  }

  lemma FractionRunOf(n: Numeral, rest: string)
    requires IsPrinted(n) && (rest == [] || (!IsDigit(rest[0]) && rest[0] != '.'))
    ensures FractionRun(SpellFraction(n) + rest) == |SpellFraction(n)|
  {
    if n.fraction == [] {
      assert SpellFraction(n) + rest == rest;
    } else {
      assert (SpellFraction(n) + rest)[1..] == n.fraction + rest;
      DigitRunOf(n.fraction, rest);
    }
  }

  lemma Cut(front: string, rest: string)
    ensures (front + rest)[|front|..] == rest
  {
  }

  lemma UnsignedRunOf(n: Numeral, rest: string)
    requires IsPrinted(n) && Ends(rest)
    ensures UnsignedRun(n.whole + (SpellFraction(n) + (SpellExponent(n) + rest))) ==
            |n.whole| + |SpellFraction(n)| + |SpellExponent(n)|
  {
    hide DigitRun, FractionRun, ExponentRun;
    var fraction, exponent := SpellFraction(n), SpellExponent(n);
    var afterFraction := exponent + rest;
    var afterWhole := fraction + afterFraction;
    NoDigitFollows(n, rest);
    hide SpellFraction, SpellExponent, IsPrinted;
    DigitRunOf(n.whole, afterWhole);
    FractionRunOf(n, afterFraction);
    ExponentRunOf(n, rest);
    Cut(n.whole, afterWhole);
    Associate(n.whole, fraction, afterFraction);
    Cut(n.whole + fraction, afterFraction);
  }

  lemma NoDigitFollows(n: Numeral, rest: string)
    requires IsPrinted(n) && Ends(rest)
    ensures n.whole != [] && AllDigits(n.whole)
    ensures var s := SpellExponent(n) + rest; s == [] || (!IsDigit(s[0]) && s[0] != '.')
    ensures var s := SpellFraction(n) + (SpellExponent(n) + rest); s == [] || !IsDigit(s[0])
  {
  }

  lemma SignedRun(sign: string, t: string)
    requires (sign == "" || sign == "-") && t != [] && IsDigit(t[0]) && UnsignedRun(t) > 0
    ensures LongestDecimal(sign + t) == Some(|sign| + UnsignedRun(t))
  {
    hide UnsignedRun;
    Cut(sign, t);
    var s := sign + t;
    if sign == "-" {
      assert s[0] == '-' && SignRun(s) == 1;
    } else {
      assert t[0] != '-' && t[0] != '+' && SignRun(t) == 0;
      assert s == t;
    }
  }

  /** A printed number is read whole whatever follows it, unless that continues a number. */
  lemma LongestDecimalOf(n: Numeral, rest: string)
    requires IsPrinted(n) && Ends(rest)
    ensures LongestDecimal(SpellNumber(n) + rest) == Some(|SpellNumber(n)|)
  {
    hide UnsignedRun, SpellFraction, SpellExponent;
    var sign := if n.negative then "-" else "";
    var t := n.whole + (SpellFraction(n) + (SpellExponent(n) + rest));
    UnsignedRunOf(n, rest);
    assert IsDigit(n.whole[0]) && t[0] == n.whole[0];
    var s := SpellNumber(n) + rest;
    assert s == sign + t;
    assert |SpellNumber(n)| == |sign| + |n.whole| + |SpellFraction(n)| + |SpellExponent(n)|;
    hide SpellNumber, IsPrinted, Ends;
    SignedRun(sign, t);
  }

  lemma NoCrosses(n: Numeral)
    requires IsNumeral(n)
    ensures 'x' !in SpellNumber(n) && 'X' !in SpellNumber(n)
  {
    var sign, fraction, exponent := if n.negative then "-" else "", SpellFraction(n), SpellExponent(n);
    assert forall i :: 0 <= i < |n.whole| ==> IsDigit(n.whole[i]) && n.whole[i] != 'x' && n.whole[i] != 'X';
    assert forall i :: 0 <= i < |n.fraction| ==> IsDigit(n.fraction[i]);
    assert 'x' !in fraction && 'X' !in fraction;
    assert 'x' !in exponent && 'X' !in exponent;
    assert SpellNumber(n) == sign + n.whole + fraction + exponent;
  }

  /** What follows the first digit: another one, a point, an exponent, or nothing. */
  lemma AfterFirstDigit(n: Numeral)
    requires IsNumeral(n)
    ensures var text, k := SpellNumber(n), if n.negative then 1 else 0;
            && |text| > k && text[k] == n.whole[0] && (n.negative ==> text[0] == '-')
            && (|text| == k + 1 <==> |n.whole| == 1 && n.fraction == [] && n.exponent.None?)
            && (|text| > k + 1 ==> (text[k + 1] == '.' <==> |n.whole| == 1 && n.fraction != []))
  {
    var sign, fraction, exponent := if n.negative then "-" else "", SpellFraction(n), SpellExponent(n);
    var text, k := SpellNumber(n), |sign|;
    assert text == sign + n.whole + fraction + exponent;
    if |n.whole| > 1 {
      assert text[k + 1] == n.whole[1] && IsDigit(n.whole[1]);
    } else if n.fraction != [] {
      assert text[k + 1] == fraction[0];
    } else if n.exponent.Some? {
      assert text[k + 1] == exponent[0];
    }
  }

  /** A number passes the parser's test exactly when it has no superfluous zero in front. */
  lemma DecimalExactly(n: Numeral)
    requires IsNumeral(n)
    ensures IsDecimal(SpellNumber(n)) <==> IsPrinted(n)
  {
    NoCrosses(n);
    AfterFirstDigit(n);
    assert IsDigit(n.whole[0]);
    hide SpellNumber, AllDigits;
  }

  /** A hexadecimal number never passes. */
  lemma HexIsNotDecimal(text: string)
    requires 'x' in text || 'X' in text
    ensures !IsDecimal(text) && forall strtod: Strtod, rest :: strtod(text + rest) == Some(|text|) ==>
              ParseNumber(text + rest, strtod) == Fail
  {
    assert forall rest: string :: (text + rest)[..|text|] == text;
  }

  /** The texts that the printer writes for numbers pass the parser's test for superfluous zeros. */
  lemma PrintedIsDecimal(n: Numeral)
    requires IsPrinted(n)
    ensures var text := SpellNumber(n);
            text != [] && (text[0] == '-' || '0' <= text[0] <= '9') && IsDecimal(text)
  {
    DecimalExactly(n);
    AfterFirstDigit(n);
    assert IsDigit(n.whole[0]);
  }

  /**
   * Every number that the printer writes is readable by a strtod that finds the longest decimal number. So the
   * hypothesis of the round trip is met by all printed numbers without a range error.
   */
  lemma PrintedNumberIsReadable(n: Numeral)
    requires IsPrinted(n)
    ensures Readable(SpellNumber(n), LongestDecimal)
  {
    hide LongestDecimal, SpellNumber;
    PrintedIsDecimal(n);
    forall rest | Follows(rest) ensures LongestDecimal(SpellNumber(n) + rest) == Some(|SpellNumber(n)|) {
      LongestDecimalOf(n, rest);
    }
  }

  // ----- values with printed numbers -----

  ghost predicate IsPrintedText(text: string) {
    exists n :: IsPrinted(n) && SpellNumber(n) == text
  }

  ghost predicate PrintedNumbers(v: Value)
    decreases v
  {
    match v
    case Number(text) => IsPrintedText(text)
    case Array(es) => forall e :: e in es ==> PrintedNumbers(e)
    case Object(ms) => forall m :: m in ms ==> PrintedNumbers(m.value)
    case _ => true
  }

  lemma {:induction false} PrintedNumbersAreTokens(v: Value)
    requires PrintedNumbers(v)
    ensures Tokens(v, LongestDecimal)
    decreases v
  {
    hide LongestDecimal, SpellNumber, IsPrinted;
    match v
    case Number(text) =>
      var n :| IsPrinted(n) && SpellNumber(n) == text;
      PrintedNumberIsReadable(n);
    case Array(es) =>
      forall e | e in es ensures Tokens(e, LongestDecimal) {
        PrintedNumbersAreTokens(e);
      }
    case Object(ms) =>
      forall m | m in ms ensures Tokens(m.value, LongestDecimal) {
        PrintedNumbersAreTokens(m.value);
      }
    case _ =>
  }

  /** The round trip for every value whose numbers are written by the printer, read by the longest decimal number. */
  lemma PrintedValueRoundTrip(v: Value, pretty: bool)
    requires PrintedNumbers(v)
    ensures ParseString(Print(v, 0, pretty), LongestDecimal) == Some(v) <==> Clean(v) && Depth(v) <= 2048
  {
    PrintedNumbersAreTokens(v);
    PrintedTextRoundTrip(v, pretty, LongestDecimal);
  }

  // ----- numbers without a text -----

  predicate StartsNumber(s: string) {
    s != [] && (s[0] == '-' || '0' <= s[0] <= '9')
  }

  /**
   * A value is accepted without consuming anything exactly when a number could start and strtod consumes nothing. The
   * value is then the number of no text.
   */
  lemma UnconsumedExactly(s: string, nesting: nat, strtod: Strtod)
    requires nesting <= MAX_NESTING
    ensures var p, t := ParseValue(s, nesting, strtod), SkipSpace(s);
            && (p.Done? && p.rest == t <==> StartsNumber(t) && strtod(t) == Some(0))
            && (p.Done? && p.rest == t ==> p.result == Number([]))
  {
    hide ParseMembers, ParseElements, ParseQuoted;
    var t := SkipSpace(s);
    if StartsNumber(t) {
      assert t[..0] == [] && t[0..] == t;
      assert IsDecimal([]);
      assert forall n :: 0 < n <= |t| ==> |t[n..]| < |t|;
    }
  }

  lemma UnconsumedRest(s: string, nesting: nat, strtod: Strtod)
    requires StartsNumber(SkipSpace(s)) && strtod(SkipSpace(s)) == Some(0) && nesting <= MAX_NESTING
    ensures ParseValue(s, nesting, strtod) == Done(Number([]), SkipSpace(s))
    ensures SkipSpace(SkipSpace(s)) == SkipSpace(s)
  {
    hide ParseValue;
    UnconsumedExactly(s, nesting, strtod);
  }

  /** Inside an array such a value is never accepted: neither a comma nor a bracket follows. */
  lemma UnconsumedElementFails(s: string, nesting: nat, before: seq<Value>, strtod: Strtod)
    requires StartsNumber(SkipSpace(s)) && strtod(SkipSpace(s)) == Some(0)
    ensures ParseElements(s, nesting, before, strtod) == Fail
  {
    if nesting <= MAX_NESTING {
      UnconsumedRest(s, nesting, strtod);
      hide ParseValue;
    }
  }

  /** Nor inside an object. */
  lemma UnconsumedMemberFails(s: string, nesting: nat, before: seq<Member>, strtod: Strtod)
    requires ParseQuoted(s).Done?
    requires var t := SkipSpace(ParseQuoted(s).rest);
             Starts(t, ':') && StartsNumber(SkipSpace(t[1..])) && strtod(SkipSpace(t[1..])) == Some(0)
    ensures ParseMembers(s, nesting, before, strtod) == Fail
  {
    var t := SkipSpace(ParseQuoted(s).rest);
    if nesting <= MAX_NESTING {
      UnconsumedRest(t[1..], nesting, strtod);
      hide ParseValue, HasName, ParseQuoted;
    } else {
      assert ParseValue(t[1..], nesting, strtod) == Fail;
    }
  }

  /** A minus sign alone is a value: the number of no text. */
  lemma MinusAlone(strtod: Strtod)
    requires strtod("-") == Some(0)
    ensures ParseString("-", strtod) == Some(Number([]))
  {
    assert SkipSpace("-") == "-";
    UnconsumedRest("-", 0, strtod);
  }

  /** Signs without digits are not consumed. */
  lemma SignsAlone()
    ensures LongestDecimal("-") == Some(0) && LongestDecimal("--") == Some(0)
  {
    assert "-"[1..] == "" && "--"[1..] == "-";
    assert DigitRun("") == 0 && DigitRun("-") == 0;
    assert ""[0..] == "" && "-"[0..] == "-";
  }
}
