# Source-X error values and signal handling, in Dafny

This project models the error taxonomy of the Source-X game server, from `src/common/CException.cpp`, together with the decision logic around it.

**Error values and their one-line renders**
- `CSphereError` is the base error: a log severity, a 32-bit code and a description.
- `CAssert` is the error a failed internal check raises.
- `CException` is the Windows build's error for a processor fault, such as an access violation or a divide by zero.

**`GetSystemErrorMessage`**
- This is the loop that trims trailing line terminators from a system message.
- It is modelled both as written and as evidently intended. See "## Findings".

**`Sphere_Exception_Win32`**
- This is the fault translator: an optional crash dump, then the thrown `CException`.
- The thrown error's address is made relative to the code segment in 32-bit arithmetic.

**`SetUnixSignals`**
- This installs or removes the server's handlers for ten POSIX signals (IEEE Std 1003.1, `<signal.h>`).

**The `Signal_*` handlers**
- Each handler is a sequence of effects: save, exit flag, log line, re-arm, unblock, thread exit, raise, and child poll.

Rendering is proved against an independent reference: a small interpreter of the `sprintf` conversions used (`%d`, `%u`, `%x`, `%s`), run on the source's own format strings. Every render that loses nothing also has a parser and a round-trip lemma.

Modules, one per concept:

| module | concept |
|---|---|
| `Word` | 32-bit words, casts, and wrap-around |
| `Numerals` | `%u`, `%x` and `%d` text, and their inverses |
| `Format` | the `sprintf` reference |
| `Scan` | text splitting for the parsers |
| `SystemMessage` | the trim loop |
| `Errors` | `CSphereError` |
| `Assertion` | `CAssert`, `Assert_CheckFail` |
| `Fault` | `CException`, `Sphere_Exception_Win32` |
| `Signals` | `SetUnixSignals` |
| `Handlers` | the `Signal_*` handlers |

Constants the headers define. These headers are not part of this model; the values used are the usual ones:

| constant | values used |
|---|---|
| log levels (`CLog.h`) | `LOGL_FATAL` 1, `LOGL_CRIT` 2, `LOGL_ERROR` 3, `LOGL_WARN` 4, `LOGL_EVENT` 5, `LOGL_TRACE` 7 |
| Windows status codes | `STATUS_BREAKPOINT` 0x80000003, `STATUS_ACCESS_VIOLATION` 0xC0000005, `STATUS_FLOAT_DIVIDE_BY_ZERO` 0xC000008E, `STATUS_INTEGER_DIVIDE_BY_ZERO` 0xC0000094, `STATUS_STACK_OVERFLOW` 0xC00000FD |
| Linux signal numbers | HUP 1, INT 2, QUIT 3, ILL 4, ABRT 6, FPE 8, SEGV 11, PIPE 13, TERM 15, CHLD 17 |

## Model

| member | source | states |
|---|---|---|
| Word.ToDword | src/common/CException.cpp:189-191 | A `(DWORD)` cast yields a 32-bit word congruent to its operand modulo 2^32. |
| Word.HighBitSetIffUpperHalf | src/common/CException.cpp:62 | `code & 0x80000000` is nonzero exactly for codes of 2^31 and above. |
| Word.SubWrapIsModular | src/common/CException.cpp:192 | `dwAddr -= dwCodeStart` is the difference modulo 2^32, and adding `dwCodeStart` back recovers `dwAddr`. |
| Numerals.DecimalRoundTrip | src/common/CException.cpp:65 | The `%u` text of a code is decimal digits only, and it reads back as the code. |
| Numerals.HexRoundTrip | src/common/CException.cpp:63 | The `%x` text is lower-case hexadecimal digits only, and it reads back as the number. |
| Numerals.SignedDecimalRoundTrip | src/common/CException.cpp:104 | The `%d` text of any integer, negative ones included, reads back as that integer. |
| SystemMessage.TrimmedLength | src/common/CException.cpp:27-35 | Reference count for the trim. Everything from it to the end is a line terminator, and the character before it is not. It is 0 exactly when the message has only terminators. |
| SystemMessage.TrimAsWritten | src/common/CException.cpp:27-35 | The loop with its unsigned index. An empty message returns 0 unchanged. A message with text has its trailing terminators overwritten with NUL and the earlier characters kept; the returned count is the reference count. A message of terminators only is overwritten entirely with NUL and wraps the index to 0xFFFFFFFF, where the next guard test reads outside the buffer; the model stops there. |
| SystemMessage.LineBreakOnlyReadsPastBuffer | src/common/CException.cpp:29-31 | On the message "\r\n" the loop as written NULs both characters, leaving "\0\0", wraps its index to 0xFFFFFFFF, and its guard, still true, then reads `lpszError[0xFFFFFFFF]`, outside the buffer. The model stops at that first out-of-bounds read. |
| SystemMessage.TrimTrailingNewlines | src/common/CException.cpp:27-35 | The corrected loop returns the reference count for every message, and NULs out exactly the trimmed tail. |
| SystemMessage.TrimAgreesWhereDefined | src/common/CException.cpp:27-35 | Wherever the message has text, the loop as written and the corrected loop give the same buffer and count, and that count is positive. |
| Errors.Level | src/common/CException.cpp:54-65 | The number `%d` prints for `m_eSeverity` is the log level's value: positive, and `SeverityOfLevel` maps it back to the same severity. |
| Errors.NewError | src/common/CException.cpp:76-81 | The value constructor stores severity, code and description unchanged. |
| Errors.CopyError | src/common/CException.cpp:69-74 | The copy constructor yields an equal error value. |
| Errors.SystemText | src/common/CException.cpp:46-51 | System text is embedded exactly when the code is nonzero and the looked-up message has a character other than a line terminator. What is embedded is a prefix of the message that ends in such a character, and everything cut off after it is a line terminator. On a nonzero code whose message is only CR/LF, the model follows the corrected trim (TrimTrailingNewlines) and embeds nothing, where the loop as written reads outside the buffer (see "## Findings"). |
| Errors.CodeText | src/common/CException.cpp:62-65 | How the render prints the code. It has no contract of its own. CodeTextReadsBack states that it is hexadecimal with `0x` exactly for codes with bit 31 set, decimal otherwise, and always reads back as the code. |
| Errors.RenderError | src/common/CException.cpp:39-67 | `CSphereError::GetErrorMessage`. It has no contract of its own. RenderErrorMatchesSource states that it equals the source's `sprintf` output, and RenderErrorReadsBack that, without system text, it loses nothing. |
| Errors.RenderErrorMatchesSource | src/common/CException.cpp:39-67 | The rendered line is what `sprintf` prints for the format string the source selects. The choice is by bit 31 and by whether system text is embedded. The arguments are severity number, code, system text and description. |
| Errors.RenderErrorShape | src/common/CException.cpp:62-66 | Without system text, the line is `Error Pri=<sev>, Code=<code>, Desc='<desc>'`, with the code as `CodeText` prints it. |
| Errors.CodeTextReadsBack | src/common/CException.cpp:62-65 | The code prints with a `0x` prefix exactly when it is 2^31 or above, as decimal otherwise, never with a comma, and always reads back as the code. |
| Errors.RenderErrorReadsBack | src/common/CException.cpp:62-66 | Without system text, severity, code and description all read back from the rendered line. So distinct error values render differently. |
| Errors.CodeTextOfZero | src/common/CException.cpp:65 | Code 0 prints as "0". |
| Errors.CodeTextOfLargestDecimal | src/common/CException.cpp:65 | Code 0x7FFFFFFF, the last decimal one, prints as "2147483647". |
| Errors.CodeTextOfSmallestHex | src/common/CException.cpp:63 | Code 0x80000000, the first hexadecimal one, prints as "0x80000000". |
| Assertion.NewAssert | src/common/CException.cpp:91-94 | An assertion error has code 0 and description "Assert". It keeps the given severity, expression, file and line. |
| Assertion.CheckFail | src/common/CException.cpp:163-166 | `Assert_CheckFail` always raises a critical assertion error with code 0 and description "Assert", carrying its three arguments. |
| Assertion.RenderAssert | src/common/CException.cpp:100-106 | `CAssert::GetErrorMessage`. It has no contract of its own. RenderAssertMatchesSource states that it equals the source's `sprintf` output, and RenderAssertReadsBack that severity, expression, file and line read back from it. |
| Assertion.RenderAssertMatchesSource | src/common/CException.cpp:100-106 | The rendered assertion is what `sprintf` prints with `Assert pri=%d:'%s' file '%s', line %d` and severity, expression, file and line. |
| Assertion.RenderAssertReadsBack | src/common/CException.cpp:104 | When the expression holds no single quote, severity, expression, file and line all read back from the rendered assertion. |
| Assertion.CheckFailExample | src/common/CException.cpp:163-166 | A failed check of `x != nullptr` at world.cpp line 42 renders as `Assert pri=2:'x != nullptr' file 'world.cpp', line 42`. |
| Fault.FaultLabel | src/common/CException.cpp:141-151 | Exactly the five named status codes have a label. Each label maps back to its code, so distinct codes have distinct labels, and no label contains a double quote. |
| Fault.NewFault | src/common/CException.cpp:126-129 | A fault error is critical, is described as "Exception", and keeps its code and address. |
| Fault.RenderFault | src/common/CException.cpp:135-155 | `CException::GetErrorMessage`. It has no contract of its own. RenderFaultMatchesSource states that it equals the source's `sprintf` output for the labelled and unlabelled cases, and RenderFaultReadsBack that code and address read back from it. |
| Fault.RenderFaultMatchesSource | src/common/CException.cpp:135-155 | A labelled code renders as `sprintf("\"%s\" (0x%x)", label, address)`. Any other code renders as `sprintf("code=0x%x, (0x%x)", code, address)`. |
| Fault.RenderFaultReadsBack | src/common/CException.cpp:135-155 | Code and address both read back from every rendered fault, labelled or not. |
| Fault.RenderAccessViolation | src/common/CException.cpp:144-153 | An access violation at 0x1000 renders as `"Access Violation" (0x1000)`. |
| Fault.RenderUnlabelledCode | src/common/CException.cpp:148-150 | Code 0x9999 at 0x2000 renders as `code=0x9999, (0x2000)`. |
| Fault.NormaliseAddress | src/common/CException.cpp:189-192 | The relative address is (fault address − code start) mod 2^32. Adding the truncated code start back, with wrap-around, gives the truncated fault address. |
| Fault.TranslateFault | src/common/CException.cpp:180-195 | A crash dump is started first exactly when dumps are enabled. The last action throws a critical "Exception" carrying the raw fault id and the relative address. |
| Signals.Route | src/common/CException.cpp:281-290 | Exactly the ten managed signals have a handler, and none of them is routed to the default. |
| Signals.SetUnixSignals | src/common/CException.cpp:278-294 | Installing gives each managed signal its routed disposition, and removing gives each the default. No other signal's entry changes, gains or loses a disposition. |
| Signals.IllegalInstructionTerminates | src/common/CException.cpp:283-287 | An illegal instruction goes to the terminate handler. Segmentation and arithmetic faults go to the illegal-instruction handler. |
| Signals.OnlyUnmanagedEntriesMatter | src/common/CException.cpp:278-294 | The result depends only on the table's entries outside the ten managed signals. |
| Signals.LastCallWins | src/common/CException.cpp:278-294 | Of two calls, the second decides the table. |
| Signals.Idempotent | src/common/CException.cpp:278-294 | Calling twice with the same flag equals calling once. |
| Signals.UninstallRestores | src/common/CException.cpp:278-294 | Installing then removing gives back any table in which the ten signals had their defaults. |
| Signals.UninstallForgetsIgnoredPipe | src/common/CException.cpp:289 | Removing writes the default, not the earlier disposition: a table that ignored SIGPIPE before installing comes back with SIGPIPE at the default, so it is not restored. |
| Handlers.SignalHangup | src/common/CException.cpp:207-214 | `Signal_Hangup` as its sequence of effects. It has no contract of its own. HangupSavesUnlessPaused and HangupIsNotRearmed state what it does. |
| Handlers.HangupSavesUnlessPaused | src/common/CException.cpp:207-214 | The hang-up handler saves the world exactly once, forced, when no resync pause is on, and not at all otherwise. It sets the exit flag exactly once, as its last action, with SIGHUP as the reason. |
| Handlers.HangupIsNotRearmed | src/common/CException.cpp:207-214 | The hang-up handler never re-arms. Under reset-on-delivery semantics, SIGHUP is left at its default. |
| Handlers.SignalTerminate | src/common/CException.cpp:216-232 | `Signal_Terminate` as its sequence of effects. It has no contract of its own. UnstableLineMatchesSource, RearmingHandlers and TerminateNeverReachesExitFlag state what it does. |
| Handlers.TerminateNeverReachesExitFlag | src/common/CException.cpp:216-232 | The terminate handler sets the exit flag once in statement order, but only after the thread exits. So the effects that take place never include it. |
| Handlers.UnstableLineMatchesSource | src/common/CException.cpp:220 | The terminate handler logs what `"Server Unstable: %s\n"` prints for the signal name. |
| Handlers.SignalBreak | src/common/CException.cpp:234-247 | `Signal_Break` as its sequence of effects. It has no contract of its own. BreakLineMatchesSource, BreakNeverExits and RearmingHandlers state what it does. |
| Handlers.BreakNeverExits | src/common/CException.cpp:234-247 | The interrupt handler never sets the exit flag. |
| Handlers.BreakLineMatchesSource | src/common/CException.cpp:238 | The interrupt handler logs the fixed "Secure Mode prevents CTRL+C" line. |
| Handlers.SignalIllegalInstruction | src/common/CException.cpp:249-269 | `Signal_Illegal_Instruction` as its sequence of effects. It has no contract of its own. NameLineMatchesSource, IllegalInstructionRaises and RearmingHandlers state what it does. |
| Handlers.NameLineMatchesSource | src/common/CException.cpp:254 | The illegal-instruction handler logs what `"%s\n"` prints for the signal name. |
| Handlers.IllegalInstructionRaises | src/common/CException.cpp:249-269 | The illegal-instruction handler never sets the exit flag. It ends by raising a fatal error whose description is the signal's name and whose code is the signal number cast to a DWORD. For every signal number of 0 or more, the default 0 included, that code is the signal number itself. |
| Handlers.RearmingHandlers | src/common/CException.cpp:216-269 | For a nonzero signal, the terminate, interrupt and illegal-instruction handlers re-arm that signal immediately before unblocking it, and every unblock is preceded by that re-arm. For signal 0 they do neither. |
| Handlers.HandlersRestoreTable | src/common/CException.cpp:216-269 | Under reset-on-delivery semantics, a signal routed by `SetUnixSignals(true)` to the terminate, interrupt or illegal-instruction handler has its disposition restored by that handler, giving back exactly the installed table. |
| Handlers.SignalChildren | src/common/CException.cpp:271-275 | Given the successive `waitpid` answers, the loop polls while the answer is positive. It polls up to and including the first answer that is not positive, every earlier answer being positive, and each poll reaps exactly when its answer is positive. |
| Handlers.SignalChildrenCollectsPending | src/common/CException.cpp:271-275 | With `n` exited children pending, `waitpid` answers positively `n` times and then not. The loop polls `n + 1` times, collects every child, and stops at the first poll that finds none. |

## Left out

- `FormatMessage`, the system message lookup: a foreign call. Its output is the `lookup`/`buf` parameter.
- `CrashDump::IsEnabled`, `StartCrashDump`, `GetCurrentProcessId` and `GetCurrentThreadId`: foreign calls. They become parameters and an action token.
- `&globalstartsymbol` and the exception record passed to the translator: they are the `codeStart` and `exceptionAddress` parameters.
- `signal`, `sigprocmask`, `pthread_exit`, `waitpid` and `strsignal`: operating-system calls.
  - The first four are actions.
  - `strsignal` is the `name` parameter.
  - `waitpid`'s results are the sequence of values it returns.
- `g_World.Save`, `g_Serv.SetExitFlag` and `g_Log.Event`: server collaborators, modelled as actions.
- `_purecall` and `SetExceptionTranslator`: runtime hooks that only register or forward to modelled code.
- `PAUSECALLSTACK` and `StackDebugInformation::printStackTrace`: debug instrumentation with no effect on the error values.
- The destructors: they have empty bodies.
- The commented-out `GetAssertFile`/`GetAssertLine`.
- The caller's buffer capacity `nMaxError`: the renders ignore it and `sprintf` is unbounded, so renders return a string of any length and are not truncated. The 1024-character `szCode` does bound the system message lookup (`sizeof(szCode)` at line 50). That bound belongs to `FormatMessage`, so it is carried by the `lookup` parameter; the trim model only requires the message to be shorter than 0xFFFFFFFF characters.
- `pnHelpContext` and the `bool` result of the `GetErrorMessage` functions: every path returns true, so the renders return only the string.
- Strings are NUL-free sequences. A C string cut short by an embedded NUL is not modelled.
- Asynchronous delivery, re-entrancy, and a hang-up save racing other threads: concurrency.
- `src/common/CExpression.h` is not part of this model. It declares the expression evaluator and numeric helpers, whose bodies are elsewhere, and holds no behaviour of the error taxonomy.
- Handlers.SignalBreak: the handler's log line mentions secure mode, but the code consults no secure-mode setting. The model follows the code, so interruption from the terminal is refused unconditionally.
- Handlers.HandlersRestoreTable: it assumes reset-on-delivery (System V) `signal` semantics. Under BSD semantics the table never changes on delivery, and re-arming is a no-op.
- Assertion.RenderAssertReadsBack: it requires an expression without a single quote. With one, the rendered line is ambiguous and the parser cannot recover the split.
- Errors.RenderErrorReadsBack: it is stated only for lines without embedded system text. The system message may itself contain the separators.
- Handlers.SignalChildren: the `waitpid` answers are a finite sequence. When it runs out before a non-positive answer, the model stops with it, where the source would keep polling.
- Assertion.CheckFail: the line number is a 32-bit `i32`, where the source takes a `long` (lines 91 and 163). `%d` applied to a 64-bit `long` on a POSIX build is undefined behaviour in C, so the model prints the 32-bit value as the Windows build does.

## Findings

| source | as written | input that shows it | evidently intended | confidence | as-written member | corrected member |
|---|---|---|---|---|---|---|
| src/common/CException.cpp:29-32 | `DWORD index` makes the guard `index >= 0` always true. A message of line terminators only is NULed, then the index decrements from 0 to 0xFFFFFFFF, and the guard reads `lpszError[0xFFFFFFFF]`, outside the buffer (`lpszError[-1]` once the address wraps on a 32-bit build). It writes there only if that byte is CR or LF, and the loop goes on. The model stops at the first out-of-bounds read. | A system message "\r\n" (`nChars == 2`) | Stop at the start of the buffer and return 0. The caller then renders without system text. | not executed | SystemMessage.LineBreakOnlyReadsPastBuffer | SystemMessage.TrimTrailingNewlines |
