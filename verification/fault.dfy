/** `CException` (Windows build): the error a processor fault is turned
    into, carrying the fault's status code and the faulting address, and the
    translator `Sphere_Exception_Win32` that builds it. */
module Fault {
  import opened Wrappers
  import opened Word
  import opened Numerals
  import opened Format
  import opened Scan
  import opened Errors

  /** The platform status codes the render names (values of the Windows
      status header). */
  const STATUS_BREAKPOINT: u32 := 0x8000_0003
  const STATUS_ACCESS_VIOLATION: u32 := 0xC000_0005
  const STATUS_FLOAT_DIVIDE_BY_ZERO: u32 := 0xC000_008E
  const STATUS_INTEGER_DIVIDE_BY_ZERO: u32 := 0xC000_0094
  const STATUS_STACK_OVERFLOW: u32 := 0xC000_00FD

  const WHITELIST: set<u32> := {STATUS_BREAKPOINT, STATUS_ACCESS_VIOLATION, STATUS_FLOAT_DIVIDE_BY_ZERO,
                                STATUS_INTEGER_DIVIDE_BY_ZERO, STATUS_STACK_OVERFLOW}

  /** The inverse of the label table. */
  function LabelCode(text: string): Option<u32> {
    if text == "Breakpoint" then Some(STATUS_BREAKPOINT)
    else if text == "Access Violation" then Some(STATUS_ACCESS_VIOLATION)
    else if text == "Float: Divide by Zero" then Some(STATUS_FLOAT_DIVIDE_BY_ZERO)
    else if text == "Integer: Divide by Zero" then Some(STATUS_INTEGER_DIVIDE_BY_ZERO)
    else if text == "Stack Overflow" then Some(STATUS_STACK_OVERFLOW)
    else None
  }

  /** The label the switch gives a status code: exactly the five
      whitelisted codes have one, no two codes share one, and no label holds
      a double quote. */
  function FaultLabel(code: u32): (r: Option<string>)
    ensures r.Some? <==> code in WHITELIST
    ensures r.Some? ==> LabelCode(r.value) == Some(code)
    ensures r.Some? ==> '"' !in r.value
  {
    if code == STATUS_BREAKPOINT then Some("Breakpoint")
    else if code == STATUS_ACCESS_VIOLATION then Some("Access Violation")
    else if code == STATUS_FLOAT_DIVIDE_BY_ZERO then Some("Float: Divide by Zero")
    else if code == STATUS_INTEGER_DIVIDE_BY_ZERO then Some("Integer: Divide by Zero")
    else if code == STATUS_STACK_OVERFLOW then Some("Stack Overflow")
    else None
  }

  datatype FaultError = FaultError(base: ErrorValue, address: u32)

  /** The `CException` constructor: critical, described as "Exception". */
  function NewFault(code: u32, address: u32): (f: FaultError)
    ensures f.base.severity == Crit && f.base.description == "Exception"
    ensures f.base.code == code && f.address == address
  {
    FaultError(NewError(Crit, code, "Exception"), address)
  }

  /** `CException::GetErrorMessage`. */
  function RenderFault(f: FaultError): string {
    match FaultLabel(f.base.code)
    case Some(text) => "\"" + text + "\" (0x" + Hex(f.address) + ")"
    case None => "code=0x" + Hex(f.base.code) + ", (0x" + Hex(f.address) + ")"
  }

  const LABEL_FORMAT := "\"%s\" (0x%x)"
  const CODE_FORMAT := "code=0x%x, (0x%x)"

  lemma LabelFormat()
    ensures LABEL_FORMAT == "\"" + (['%', 's'] + ("\" (0x" + (['%', 'x'] + ")")))
    ensures Plain("\"") && Plain("\" (0x") && Plain(")")
  {
  }

  lemma CodeFormat()
    ensures CODE_FORMAT == "code=0x" + (['%', 'x'] + (", (0x" + (['%', 'x'] + ")")))
    ensures Plain("code=0x") && Plain(", (0x") && Plain(")")
  {
  }

  /** The rendered text is what the source's `sprintf` prints: the label
      format for a whitelisted code, the code format otherwise. */
  lemma RenderFaultMatchesSource(f: FaultError)
    ensures FaultLabel(f.base.code).Some? ==>
      Sprintf(LABEL_FORMAT, [Str(FaultLabel(f.base.code).value), Uint(f.address)]) == Some(RenderFault(f))
    ensures FaultLabel(f.base.code).None? ==>
      Sprintf(CODE_FORMAT, [Uint(f.base.code), Uint(f.address)]) == Some(RenderFault(f))
  {
    var a := Uint(f.address);
    match FaultLabel(f.base.code)
    case Some(text) =>
      LabelFormat();
      Sprintf2("\"", 's', "\" (0x", 'x', ")", Str(text), a, text, Hex(f.address));
      ArgLists(Str(text), a, a, a);
    case None =>
      CodeFormat();
      Sprintf2("code=0x", 'x', ", (0x", 'x', ")", Uint(f.base.code), a, Hex(f.base.code), Hex(f.address));
      ArgLists(Uint(f.base.code), a, a, a);
  }

  /** Reads the code and the address back from a rendered fault. */
  function ParseFault(s: string): Option<(u32, u32)> {
    match StripPrefix("code=0x", s)
    case Some(rest) =>
      var (codeText, afterCode) := SplitAt(rest, ',');
      var code :- ParseWord(codeText);
      var address :- ParseAddress(", (0x", afterCode);
      if FaultLabel(code).None? then Some((code, address)) else None
    case None =>
      var rest :- StripPrefix("\"", s);
      var (text, afterLabel) := SplitAt(rest, '"');
      var code :- LabelCode(text);
      var address :- ParseAddress("\" (0x", afterLabel);
      Some((code, address))
  }

  function ParseWord(s: string): Option<u32> {
    match ParseHex(s)
    case Some(n) => if n < TWO_32 then Some(n) else None
    case None => None
  }

  /** The address after its lead-in text, closed by a parenthesis. */
  function ParseAddress(leadIn: string, s: string): Option<u32> {
    var afterLeadIn :- StripPrefix(leadIn, s);
    var hex :- StripSuffix(afterLeadIn, ')');
    ParseWord(hex)
  }

  lemma ParseAddressOf(leadIn: string, address: u32)
    ensures ParseAddress(leadIn, leadIn + (Hex(address) + ")")) == Some(address)
  {
    StripPrefixOf(leadIn, Hex(address) + ")");
    StripSuffixOf(Hex(address), ')');
    HexRoundTrip(address);
  }

  /** Rendering a fault loses neither the code nor the address: both read
      back, whether the code has a label or not. */
  lemma RenderFaultReadsBack(f: FaultError)
    ensures ParseFault(RenderFault(f)) == Some((f.base.code, f.address))
  {
    var H := Hex(f.address);
    var tail := H + ")";
    match FaultLabel(f.base.code)
    case Some(text) =>
      Regroup5("\"", text, "\" (0x", H, ")");
      var rest := text + ("\" (0x" + tail);
      assert StripPrefix("code=0x", RenderFault(f)).None? by {
        assert RenderFault(f)[0] == '"';
      }
      StripPrefixOf("\"", rest);
      SplitAtOf(text, "\" (0x" + tail, '"');
      ParseAddressOf("\" (0x", f.address);
    case None =>
      var C := Hex(f.base.code);
      Regroup5("code=0x", C, ", (0x", H, ")");
      StripPrefixOf("code=0x", C + (", (0x" + tail));
      NumbersHaveNoSeparator(0, f.base.code, ',');
      SplitAtOf(C, ", (0x" + tail, ',');
      HexRoundTrip(f.base.code);
      ParseAddressOf(", (0x", f.address);
  }

  /** `(DWORD)` of the faulting address minus `(DWORD)` of the code-segment
      start, in 32-bit arithmetic. */
  function NormaliseAddress(exceptionAddress: nat, codeStart: nat): (a: u32)
    ensures a == (exceptionAddress - codeStart) % TWO_32
    ensures AddWrap(a, ToDword(codeStart)) == ToDword(exceptionAddress)
  {
    var start := ToDword(codeStart);
    var addr := ToDword(exceptionAddress);
    SubWrapIsModular(addr, start);
    ModuloOfDifference(exceptionAddress, codeStart);
    SubWrap(addr, start)
  }

  lemma ModuloOfDifference(x: int, y: int)
    ensures (x % TWO_32 - y % TWO_32) % TWO_32 == (x - y) % TWO_32
  {
    var qx, qy := x / TWO_32, y / TWO_32;
    assert x == qx * TWO_32 + x % TWO_32;
    assert y == qy * TWO_32 + y % TWO_32;
    assert x - y == (qx - qy) * TWO_32 + (x % TWO_32 - y % TWO_32);
    ModuloShift(x % TWO_32 - y % TWO_32, qx - qy);
  }

  lemma ModuloShift(r: int, k: int)
    ensures (k * TWO_32 + r) % TWO_32 == r % TWO_32
  {
  }

  /** What the translator does, in order. */
  datatype TranslatorAction =
    | StartCrashDump(processId: nat, threadId: nat)
    | Throw(fault: FaultError)

  /** `Sphere_Exception_Win32`: with crash dumps enabled, a dump is started
      first; then the fault is thrown with the raw status code and the
      address made relative to the code segment. */
  function TranslateFault(id: u32, exceptionAddress: nat, codeStart: nat, crashDumpsEnabled: bool,
                          processId: nat, threadId: nat): (r: seq<TranslatorAction>)
    ensures |r| == if crashDumpsEnabled then 2 else 1
    ensures r[|r| - 1] == Throw(NewFault(id, (exceptionAddress - codeStart) % TWO_32))
    ensures crashDumpsEnabled ==> r[0] == StartCrashDump(processId, threadId)
    ensures forall i :: 0 <= i < |r| - 1 ==> r[i].StartCrashDump?
  {
    var dump := if crashDumpsEnabled then [StartCrashDump(processId, threadId)] else [];
    dump + [Throw(NewFault(id, NormaliseAddress(exceptionAddress, codeStart)))]
  }

  lemma HexOfThousand(n: nat)
    requires n == 0x1000
    ensures Hex(n) == "1000"
  {
  }

  lemma HexOfRepeatedNines(n: nat)
    requires n == 0x9999
    ensures Hex(n) == "9999"
  {
  }

  lemma HexOfTwoThousand(n: nat)
    requires n == 0x2000
    ensures Hex(n) == "2000"
  {
  }

  /** A worked example: an access violation is printed with its label.
      The literals come in as parameters fixed by `requires`: on literal
      arguments the verifier unfolds the digit recursion eagerly, and the
      proof runs out of resource. */
  lemma RenderAccessViolation(code: u32, address: u32)
    requires code == STATUS_ACCESS_VIOLATION && address == 0x1000
    ensures RenderFault(NewFault(code, address)) == "\"Access Violation\" (0x1000)"
  {
    var f := NewFault(code, address);
    assert FaultLabel(code) == Some("Access Violation");
    var a := Hex(address);
    assert RenderFault(f) == "\"" + "Access Violation" + "\" (0x" + a + ")";
    HexOfThousand(address);
  }

  /** A worked example: a code outside the whitelist is printed in hex.
      The literals come in as parameters fixed by `requires`: on literal
      arguments the verifier unfolds the digit recursion eagerly, and the
      proof runs out of resource. */
  lemma RenderUnlabelledCode(code: u32, address: u32)
    requires code == 0x9999 && address == 0x2000
    ensures RenderFault(NewFault(code, address)) == "code=0x9999, (0x2000)"
  {
    var f := NewFault(code, address);
    assert FaultLabel(code).None?;
    var c, a := Hex(code), Hex(address);
    assert RenderFault(f) == "code=0x" + c + ", (0x" + a + ")";
    HexOfRepeatedNines(code);
    HexOfTwoThousand(address);
  }
}
