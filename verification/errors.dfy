/** `CSphereError`, the base error value: a severity, a 32-bit code and a
    description, rendered as one line of text. */
module Errors {
  import opened Wrappers
  import opened Word
  import opened Numerals
  import opened Format
  import opened SystemMessage
  import opened Scan

  /** The log levels an error is raised with, and the number `%d` prints for
      each. */
  datatype Severity = Fatal | Crit | Error | Warn | Event | Trace

  function Level(s: Severity): (n: int)
    ensures n > 0
    ensures SeverityOfLevel(n) == Some(s)
  {
    match s
    case Fatal => 1
    case Crit => 2
    case Error => 3
    case Warn => 4
    case Event => 5
    case Trace => 7
  }

  function SeverityOfLevel(n: int): Option<Severity> {
    if n == 1 then Some(Fatal)
    else if n == 2 then Some(Crit)
    else if n == 3 then Some(Error)
    else if n == 4 then Some(Warn)
    else if n == 5 then Some(Event)
    else if n == 7 then Some(Trace)
    else None
  }

  datatype ErrorValue = ErrorValue(severity: Severity, code: u32, description: string)

  /** The value constructor: the three fields stored as given. */
  function NewError(severity: Severity, code: u32, description: string): (e: ErrorValue)
    ensures e.severity == severity && e.code == code && e.description == description
  {
    ErrorValue(severity, code, description)
  }

  /** The copy constructor: every field carried over. */
  function CopyError(e: ErrorValue): (r: ErrorValue)
    ensures r == e
  {
    ErrorValue(e.severity, e.code, e.description)
  }

  /** The code as the render prints it: `0x` and lower-case hex when bit 31
      is set (a platform status value), unsigned decimal otherwise. */
  function CodeText(code: u32): string {
    if HighBitSet(code) then "0x" + Hex(code) else Decimal(code)
  }

  const PLAIN_DECIMAL_FORMAT := "Error Pri=%d, Code=%u, Desc='%s'"
  const PLAIN_HEX_FORMAT := "Error Pri=%d, Code=0x%x, Desc='%s'"
  const SYSTEM_DECIMAL_FORMAT := "Error Pri=%d, Code=%u(%s), Desc='%s'"
  const SYSTEM_HEX_FORMAT := "Error Pri=%d, Code=0x%x(%s), Desc='%s'"

  /** The system text the Windows build embeds after the code: present only
      for a nonzero code whose looked-up message keeps at least one
      character once trailing line terminators are trimmed. `lookup` is what
      the system message lookup wrote for the code; None on the POSIX build,
      where no lookup is made. What is embedded is the message up to its
      last character that is not a line terminator. On a message of line
      terminators only, the loop as written reads outside the buffer; the
      model follows the corrected trim there (TrimTrailingNewlines), which
      embeds nothing, so the plain line is printed. */
  function SystemText(code: u32, lookup: Option<string>): (r: Option<string>)
    ensures r.Some? <==> code != 0 && lookup.Some? && HasText(lookup.value)
    ensures r.Some? ==>
      && r.value <= lookup.value
      && |r.value| > 0 && !IsLineEnd(r.value[|r.value| - 1])
      && forall i :: |r.value| <= i < |lookup.value| ==> IsLineEnd(lookup.value[i])
  {
    match lookup
    case Some(raw) =>
      if code != 0 && TrimmedLength(raw) > 0 then Some(raw[..TrimmedLength(raw)]) else None
    case None => None
  }

  /** `CSphereError::GetErrorMessage`: one of four lines, chosen by whether
      system text is embedded and by bit 31 of the code. */
  function RenderError(e: ErrorValue, lookup: Option<string>): string {
    var pri := SignedDecimal(Level(e.severity));
    match SystemText(e.code, lookup)
    case Some(text) =>
      if HighBitSet(e.code) then
        "Error Pri=" + pri + ", Code=0x" + Hex(e.code) + "(" + text + "), Desc='" + e.description + "'"
      else
        "Error Pri=" + pri + ", Code=" + Decimal(e.code) + "(" + text + "), Desc='" + e.description + "'"
    case None =>
      if HighBitSet(e.code) then
        "Error Pri=" + pri + ", Code=0x" + Hex(e.code) + ", Desc='" + e.description + "'"
      else
        "Error Pri=" + pri + ", Code=" + Decimal(e.code) + ", Desc='" + e.description + "'"
  }

  /** The format string the source passes to `sprintf` for this error. */
  function FormatFor(e: ErrorValue, lookup: Option<string>): string {
    if SystemText(e.code, lookup).Some? then
      (if HighBitSet(e.code) then SYSTEM_HEX_FORMAT else SYSTEM_DECIMAL_FORMAT)
    else
      (if HighBitSet(e.code) then PLAIN_HEX_FORMAT else PLAIN_DECIMAL_FORMAT)
  }

  function ArgsFor(e: ErrorValue, lookup: Option<string>): seq<Arg> {
    match SystemText(e.code, lookup)
    case Some(text) => [Int(Level(e.severity)), Uint(e.code), Str(text), Str(e.description)]
    case None => [Int(Level(e.severity)), Uint(e.code), Str(e.description)]
  }

  lemma PlainDecimalFormat()
    ensures PLAIN_DECIMAL_FORMAT
         == "Error Pri=" + (['%', 'd'] + (", Code=" + (['%', 'u'] + (", Desc='" + (['%', 's'] + "'")))))
    ensures Plain("Error Pri=") && Plain(", Code=") && Plain(", Desc='") && Plain("'")
  {
  }

  lemma PlainHexFormat()
    ensures PLAIN_HEX_FORMAT
         == "Error Pri=" + (['%', 'd'] + (", Code=0x" + (['%', 'x'] + (", Desc='" + (['%', 's'] + "'")))))
    ensures Plain(", Code=0x")
  {
  }

  lemma SystemDecimalFormat()
    ensures SYSTEM_DECIMAL_FORMAT
         == "Error Pri=" + (['%', 'd'] + (", Code=" + (['%', 'u'] + ("(" + (['%', 's']
            + ("), Desc='" + (['%', 's'] + "'")))))))
    ensures Plain("(") && Plain("), Desc='")
  {
  }

  lemma SystemHexFormat()
    ensures SYSTEM_HEX_FORMAT
         == "Error Pri=" + (['%', 'd'] + (", Code=0x" + (['%', 'x'] + ("(" + (['%', 's']
            + ("), Desc='" + (['%', 's'] + "'")))))))
  {
  }

  lemma RenderPlainDecimal(e: ErrorValue, lookup: Option<string>)
    requires SystemText(e.code, lookup).None? && !HighBitSet(e.code)
    ensures Sprintf(PLAIN_DECIMAL_FORMAT, [Int(Level(e.severity))] + ([Uint(e.code)] + [Str(e.description)]))
         == Some(RenderError(e, lookup))
  {
    PlainDecimalFormat();
    Sprintf3("Error Pri=", 'd', ", Code=", 'u', ", Desc='", 's', "'",
             Int(Level(e.severity)), Uint(e.code), Str(e.description),
             SignedDecimal(Level(e.severity)), Decimal(e.code), e.description);
  }

  lemma RenderPlainHex(e: ErrorValue, lookup: Option<string>)
    requires SystemText(e.code, lookup).None? && HighBitSet(e.code)
    ensures Sprintf(PLAIN_HEX_FORMAT, [Int(Level(e.severity))] + ([Uint(e.code)] + [Str(e.description)]))
         == Some(RenderError(e, lookup))
  {
    PlainDecimalFormat();
    PlainHexFormat();
    Sprintf3("Error Pri=", 'd', ", Code=0x", 'x', ", Desc='", 's', "'",
             Int(Level(e.severity)), Uint(e.code), Str(e.description),
             SignedDecimal(Level(e.severity)), Hex(e.code), e.description);
  }

  lemma RenderSystemDecimal(e: ErrorValue, lookup: Option<string>, text: string)
    requires SystemText(e.code, lookup) == Some(text) && !HighBitSet(e.code)
    ensures Sprintf(SYSTEM_DECIMAL_FORMAT,
                    [Int(Level(e.severity))] + ([Uint(e.code)] + ([Str(text)] + [Str(e.description)])))
         == Some(RenderError(e, lookup))
  {
    PlainDecimalFormat();
    SystemDecimalFormat();
    Sprintf4("Error Pri=", 'd', ", Code=", 'u', "(", 's', "), Desc='", 's', "'",
             Int(Level(e.severity)), Uint(e.code), Str(text), Str(e.description),
             SignedDecimal(Level(e.severity)), Decimal(e.code), text, e.description);
  }

  lemma RenderSystemHex(e: ErrorValue, lookup: Option<string>, text: string)
    requires SystemText(e.code, lookup) == Some(text) && HighBitSet(e.code)
    ensures Sprintf(SYSTEM_HEX_FORMAT,
                    [Int(Level(e.severity))] + ([Uint(e.code)] + ([Str(text)] + [Str(e.description)])))
         == Some(RenderError(e, lookup))
  {
    PlainDecimalFormat();
    PlainHexFormat();
    SystemDecimalFormat();
    SystemHexFormat();
    Sprintf4("Error Pri=", 'd', ", Code=0x", 'x', "(", 's', "), Desc='", 's', "'",
             Int(Level(e.severity)), Uint(e.code), Str(text), Str(e.description),
             SignedDecimal(Level(e.severity)), Hex(e.code), text, e.description);
  }

  /** The rendered line is exactly what the source's `sprintf` call prints:
      of its four format strings, the one chosen by bit 31 of the code and by
      whether system text is embedded, filled in with the severity's number,
      the code, the system text and the description. */
  lemma RenderErrorMatchesSource(e: ErrorValue, lookup: Option<string>)
    ensures Sprintf(FormatFor(e, lookup), ArgsFor(e, lookup)) == Some(RenderError(e, lookup))
  {
    var sev, code, desc := Int(Level(e.severity)), Uint(e.code), Str(e.description);
    match SystemText(e.code, lookup)
    case None =>
      ArgLists(sev, code, desc, desc);
      if HighBitSet(e.code) {
        RenderPlainHex(e, lookup);
      } else {
        RenderPlainDecimal(e, lookup);
      }
    case Some(text) =>
      ArgLists(sev, code, Str(text), desc);
      if HighBitSet(e.code) {
        RenderSystemHex(e, lookup, text);
      } else {
        RenderSystemDecimal(e, lookup, text);
      }
  }

  /** Where no system text is embedded, the line has the one shape the
      description of the error value promises, with the code printed by
      `CodeText`. */
  lemma RenderErrorShape(e: ErrorValue, lookup: Option<string>)
    requires SystemText(e.code, lookup).None?
    ensures RenderError(e, lookup)
         == "Error Pri=" + SignedDecimal(Level(e.severity)) + ", Code=" + CodeText(e.code)
            + ", Desc='" + e.description + "'"
  {
    if HighBitSet(e.code) {
      var pri, h := SignedDecimal(Level(e.severity)), Hex(e.code);
      assert ", Code=0x" == ", Code=" + "0x";
      Regroup3("Error Pri=" + pri + ", Code=", "0x", h);
    }
  }

  /** Reads the code back from its text: `0x` and hex for the upper half of
      the range, plain decimal for the lower half. */
  function ParseCode(s: string): Option<u32> {
    match StripPrefix("0x", s)
    case Some(h) =>
      (match ParseHex(h)
       case Some(n) => if HIGH_BIT <= n < TWO_32 then Some(n) else None
       case None => None)
    case None =>
      (match ParseDecimal(s)
       case Some(n) => if n < HIGH_BIT then Some(n) else None
       case None => None)
  }

  /** The code text is hexadecimal exactly when bit 31 is set, and always
      reads back as the code. */
  lemma CodeTextReadsBack(code: u32)
    ensures ParseCode(CodeText(code)) == Some(code)
    ensures StripPrefix("0x", CodeText(code)).Some? <==> code >= HIGH_BIT
    ensures code < HIGH_BIT ==> CodeText(code) == Decimal(code)
    ensures ',' !in CodeText(code)
  {
    HighBitSetIffUpperHalf(code);
    if HighBitSet(code) {
      StripPrefixOf("0x", Hex(code));
      HexRoundTrip(code);
      assert CodeText(code)[2..] == Hex(code);
    } else {
      DecimalRoundTrip(code);
      assert StripPrefix("0x", CodeText(code)).None? by {
        if 2 <= |Decimal(code)| {
          assert IsDecDigit(Decimal(code)[1]);
        }
      }
    }
  }

  /** Reads an error value back from a line rendered without system text. */
  function ParseError(s: string): Option<ErrorValue> {
    var afterPri :- StripPrefix("Error Pri=", s);
    var (pri, afterLevel) := SplitAt(afterPri, ',');
    var level :- ParseSignedDecimal(pri);
    var severity :- SeverityOfLevel(level);
    var afterCode :- StripPrefix(", Code=", afterLevel);
    var (codeText, afterCodeText) := SplitAt(afterCode, ',');
    var code :- ParseCode(codeText);
    var afterDesc :- StripPrefix(", Desc='", afterCodeText);
    var description :- StripSuffix(afterDesc, '\'');
    Some(ErrorValue(severity, code, description))
  }

  /** Without system text, rendering loses nothing: severity, code and
      description all read back from the line, so two error values render
      alike only if they are equal. */
  lemma RenderErrorReadsBack(e: ErrorValue, lookup: Option<string>)
    requires SystemText(e.code, lookup).None?
    ensures ParseError(RenderError(e, lookup)) == Some(e)
  {
    var P, C, d := SignedDecimal(Level(e.severity)), CodeText(e.code), e.description;
    RenderErrorShape(e, lookup);
    var X3 := ", Desc='" + (d + "'");
    var X2 := ", Code=" + (C + X3);
    var X1 := P + X2;
    Regroup7("Error Pri=", P, ", Code=", C, ", Desc='", d, "'");
    StripPrefixOf("Error Pri=", X1);
    NumbersHaveNoSeparator(Level(e.severity), e.code, ',');
    SplitAtOf(P, X2, ',');
    SignedDecimalRoundTrip(Level(e.severity));
    StripPrefixOf(", Code=", C + X3);
    CodeTextReadsBack(e.code);
    SplitAtOf(C, X3, ',');
    StripPrefixOf(", Desc='", d + "'");
    StripSuffixOf(d, '\'');
  }

  /** The code text at the boundaries of the two renderings. In the last
      two, the code comes in as a parameter fixed by `requires`: on a literal
      argument the verifier unfolds the digit recursion eagerly, and the
      proof runs out of resource. */
  lemma CodeTextOfZero()
    ensures CodeText(0) == "0"
  {
  }

  lemma CodeTextOfLargestDecimal(code: u32)
    requires code == 0x7FFF_FFFF
    ensures CodeText(code) == "2147483647"
  {
    DecimalOfSignedMax();
    HighBitSetIffUpperHalf(code);
  }

  lemma CodeTextOfSmallestHex(code: u32)
    requires code == 0x8000_0000
    ensures CodeText(code) == "0x80000000"
  {
    HexOfHighBit();
    HighBitSetIffUpperHalf(code);
  }
}
