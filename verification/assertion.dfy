/** `CAssert` and `Assert_CheckFail`: the error raised when a checked
    invariant of the program does not hold. */
module Assertion {
  import opened Wrappers
  import opened Word
  import opened Numerals
  import opened Format
  import opened Scan
  import opened Errors

  /** The base part holds code 0 and the description "Assert"; the
      expression and file are the texts of the failed check. */
  datatype AssertError = AssertError(base: ErrorValue, expression: string, file: string, line: i32)

  /** The `CAssert` constructor. */
  function NewAssert(severity: Severity, expression: string, file: string, line: i32): (a: AssertError)
    ensures a.base.code == 0 && a.base.description == "Assert"
    ensures a.base.severity == severity
    ensures a.expression == expression && a.file == file && a.line == line
  {
    AssertError(NewError(severity, 0, "Assert"), expression, file, line)
  }

  /** `Assert_CheckFail`: the assertion error it throws, always critical. */
  function CheckFail(expression: string, file: string, line: i32): (a: AssertError)
    ensures a.base == ErrorValue(Crit, 0, "Assert")
    ensures a.expression == expression && a.file == file && a.line == line
  {
    NewAssert(Crit, expression, file, line)
  }

  /** `CAssert::GetErrorMessage`. */
  function RenderAssert(a: AssertError): string {
    "Assert pri=" + SignedDecimal(Level(a.base.severity)) + ":'" + a.expression + "' file '" + a.file
      + "', line " + SignedDecimal(a.line)
  }

  const ASSERT_FORMAT := "Assert pri=%d:'%s' file '%s', line %d"

  lemma AssertFormat()
    ensures ASSERT_FORMAT
         == "Assert pri=" + (['%', 'd'] + (":'" + (['%', 's'] + ("' file '" + (['%', 's']
            + ("', line " + (['%', 'd'] + "")))))))
    ensures Plain("Assert pri=") && Plain(":'") && Plain("' file '") && Plain("', line ") && Plain("")
  {
  }

  /** The rendered line is what the source's `sprintf` prints with its
      format string and the severity, expression, file and line. */
  lemma RenderAssertMatchesSource(a: AssertError)
    ensures Sprintf(ASSERT_FORMAT, [Int(Level(a.base.severity)), Str(a.expression), Str(a.file), Int(a.line)])
         == Some(RenderAssert(a))
  {
    var sev, line := Level(a.base.severity), a.line;
    AssertFormat();
    Sprintf4("Assert pri=", 'd', ":'", 's', "' file '", 's', "', line ", 'd', "",
             Int(sev), Str(a.expression), Str(a.file), Int(line),
             SignedDecimal(sev), a.expression, a.file, SignedDecimal(line));
    ArgLists(Int(sev), Str(a.expression), Str(a.file), Int(line));
    var r := RenderAssert(a);
    assert r + "" == r;
  }

  /** Reads severity, expression, file and line back from a rendered
      assertion. The expression is taken up to its closing quote, the file up
      to the last quote. */
  function ParseAssert(s: string): Option<(Severity, string, string, int)> {
    var afterPri :- StripPrefix("Assert pri=", s);
    var (pri, afterLevel) := SplitAt(afterPri, ':');
    var level :- ParseSignedDecimal(pri);
    var severity :- SeverityOfLevel(level);
    ParseAssertText(severity, afterLevel)
  }

  function ParseAssertText(severity: Severity, s: string): Option<(Severity, string, string, int)> {
    var afterOpen :- StripPrefix(":'", s);
    var (expression, afterExpression) := SplitAt(afterOpen, '\'');
    var afterFile :- StripPrefix("' file '", afterExpression);
    ParseAssertLine(severity, expression, afterFile)
  }

  function ParseAssertLine(severity: Severity, expression: string, s: string)
    : Option<(Severity, string, string, int)>
  {
    var (file, afterFileText) := SplitAtLast(s, '\'');
    var lineText :- StripPrefix("', line ", afterFileText);
    var line :- ParseSignedDecimal(lineText);
    Some((severity, expression, file, line))
  }

  lemma ParseAssertLineOf(severity: Severity, expression: string, file: string, line: i32)
    ensures ParseAssertLine(severity, expression, file + ("', line " + SignedDecimal(line)))
         == Some((severity, expression, file, line as int))
  {
    var L := SignedDecimal(line);
    var X4 := "', line " + L;
    NumbersHaveNoSeparator(line, 0, '\'');
    assert X4[1..] == "," + (" line " + L);
    SplitAtLastOf(file, X4, '\'');
    StripPrefixOf("', line ", L);
    SignedDecimalRoundTrip(line);
  }

  lemma ParseAssertTextOf(severity: Severity, expression: string, file: string, line: i32)
    requires '\'' !in expression
    ensures ParseAssertText(severity, ":'" + (expression + ("' file '" + (file + ("', line " + SignedDecimal(line))))))
         == Some((severity, expression, file, line as int))
  {
    var X4 := "', line " + SignedDecimal(line);
    var X3 := "' file '" + (file + X4);
    StripPrefixOf(":'", expression + X3);
    SplitAtOf(expression, X3, '\'');
    StripPrefixOf("' file '", file + X4);
    ParseAssertLineOf(severity, expression, file, line);
  }

  /** An assertion whose expression has no single quote renders without
      loss: every field reads back. (The file may hold quotes: it is cut at
      the last one.) */
  lemma RenderAssertReadsBack(a: AssertError)
    requires '\'' !in a.expression
    ensures ParseAssert(RenderAssert(a)) == Some((a.base.severity, a.expression, a.file, a.line as int))
  {
    var P, E, F, L := SignedDecimal(Level(a.base.severity)), a.expression, a.file, SignedDecimal(a.line);
    var X2 := ":'" + (E + ("' file '" + (F + ("', line " + L))));
    Regroup8("Assert pri=", P, ":'", E, "' file '", F, "', line ", L);
    StripPrefixOf("Assert pri=", P + X2);
    NumbersHaveNoSeparator(Level(a.base.severity), 0, ':');
    SplitAtOf(P, X2, ':');
    SignedDecimalRoundTrip(Level(a.base.severity));
    ParseAssertTextOf(a.base.severity, E, F, a.line);
  }

  lemma ExampleText()
    ensures "Assert pri=" + "2" + ":'" + "x != nullptr" + "' file '" + "world.cpp" + "', line " + "42"
         == "Assert pri=2:'x != nullptr' file 'world.cpp', line 42"
  {
    assert "Assert pri=" + "2" + ":'" == "Assert pri=2:'";
    assert "Assert pri=2:'" + "x != nullptr" == "Assert pri=2:'x != nullptr";
    assert "Assert pri=2:'x != nullptr" + "' file '" == "Assert pri=2:'x != nullptr' file '";
    assert "Assert pri=2:'x != nullptr' file '" + "world.cpp" == "Assert pri=2:'x != nullptr' file 'world.cpp";
    assert "Assert pri=2:'x != nullptr' file 'world.cpp" + "', line " + "42"
        == "Assert pri=2:'x != nullptr' file 'world.cpp', line 42";
  }

  /** The worked example: a failed check of `x != nullptr` at world.cpp
      line 42.
      The literals come in as parameters fixed by `requires`: on literal
      arguments the verifier unfolds the digit recursion eagerly, and the
      proof runs out of resource. */
  lemma CheckFailExample(expression: string, file: string, line: i32)
    requires expression == "x != nullptr" && file == "world.cpp" && line == 42
    ensures RenderAssert(CheckFail(expression, file, line))
         == "Assert pri=2:'x != nullptr' file 'world.cpp', line 42"
  {
    var pri, l := SignedDecimal(Level(Crit)), SignedDecimal(line);
    assert l == "42";
    assert pri == "2";
    assert RenderAssert(CheckFail(expression, file, line))
        == "Assert pri=" + pri + ":'" + expression + "' file '" + file + "', line " + l;
    ExampleText();
  }
}
