/** The `Signal_*` handlers, each modelled as the sequence of effects it
    performs, in statement order. The operating-system calls (`signal`,
    `sigprocmask`, `pthread_exit`, `waitpid`) and the server's
    collaborators (the world save, the exit flag, the log) become actions;
    `strsignal` becomes a parameter. */
module Handlers {
  import opened Wrappers
  import opened Word
  import opened Format
  import opened Errors
  import opened Signals

  datatype Action =
    | Save(forced: bool)                      // g_World.Save
    | SetExitFlag(reason: int)                // g_Serv.SetExitFlag
    | Log(severity: Severity, text: string)   // g_Log.Event
    | Rearm(sig: int, handler: Disposition)   // signal(sig, handler)
    | Unblock(sig: int)                       // sigprocmask(SIG_UNBLOCK, {sig})
    | ThreadExit                              // pthread_exit(0)
    | Raise(error: ErrorValue)                // throw
    | Poll(reaped: bool)                      // one waitpid(-1, 0, WNOHANG)

  /** A handler ends at the first action that does not return. */
  predicate Ends(a: Action) {
    a.ThreadExit? || a.Raise?
  }

  /** The actions that take effect: everything up to and including the
      first one that does not return. */
  function Executed(t: seq<Action>): (e: seq<Action>)
    ensures e <= t
    ensures forall i :: 0 <= i < |e| - 1 ==> !Ends(e[i])
    ensures |e| < |t| ==> |e| > 0 && Ends(e[|e| - 1])
  {
    if |t| == 0 then []
    else if Ends(t[0]) then [t[0]]
    else [t[0]] + Executed(t[1..])
  }

  /** The number of times the exit flag is set. */
  function ExitFlags(t: seq<Action>): nat {
    if |t| == 0 then 0
    else (if t[0].SetExitFlag? then 1 else 0) + ExitFlags(t[1..])
  }

  lemma {:induction false} ExitFlagsAppend(a: seq<Action>, b: seq<Action>)
    ensures ExitFlags(a + b) == ExitFlags(a) + ExitFlags(b)
    decreases |a|
  {
    if |a| > 0 {
      assert (a + b)[1..] == a[1..] + b;
      ExitFlagsAppend(a[1..], b);
    } else {
      assert a + b == b;
    }
  }

  /** The number of world saves. */
  function Saves(t: seq<Action>): nat {
    if |t| == 0 then 0
    else (if t[0].Save? then 1 else 0) + Saves(t[1..])
  }

  lemma {:induction false} SavesAppend(a: seq<Action>, b: seq<Action>)
    ensures Saves(a + b) == Saves(a) + Saves(b)
    decreases |a|
  {
    if |a| > 0 {
      assert (a + b)[1..] == a[1..] + b;
      SavesAppend(a[1..], b);
    } else {
      assert a + b == b;
    }
  }

  lemma {:induction false} NoExitFlags(t: seq<Action>)
    requires forall i :: 0 <= i < |t| ==> !t[i].SetExitFlag?
    ensures ExitFlags(t) == 0
    decreases |t|
  {
    if |t| > 0 {
      NoExitFlags(t[1..]);
    }
  }

  /** The tail every re-arming handler shares: when called for a real
      signal, reinstall itself and unblock the signal. */
  function RearmAndUnblock(sig: int, handler: Disposition): seq<Action> {
    if sig != 0 then [Rearm(sig, handler), Unblock(sig)] else []
  }

  /** `Signal_Hangup`: save the world unless a resync pause is on, then ask
      the server to exit. */
  function SignalHangup(resyncPause: bool): seq<Action> {
    (if resyncPause then [] else [Save(true)]) + [SetExitFlag(SIGHUP)]
  }

  /** `Signal_Terminate`, as written: the exit flag is set after
      `pthread_exit`, so it never takes effect. */
  function SignalTerminate(sig: i32, name: string): seq<Action> {
    [Log(Fatal, "Server Unstable: " + name + "\n")] + RearmAndUnblock(sig, Terminate) + [ThreadExit, SetExitFlag(SIGABRT)]
  }

  /** `Signal_Break`: interrupting from the terminal only logs; the handler
      does not look at the secure-mode setting. */
  function SignalBreak(sig: i32): seq<Action> {
    [Log(Fatal, BREAK_MESSAGE)] + RearmAndUnblock(sig, Break)
  }

  const BREAK_MESSAGE := "Secure Mode prevents CTRL+C\n"

  /** `Signal_Illegal_Instruction`: log, re-arm, and raise a fatal error
      whose code is the signal number. */
  function SignalIllegalInstruction(sig: i32, name: string): seq<Action> {
    [Log(Fatal, name + "\n")] + RearmAndUnblock(sig, IllegalInstruction) + [Raise(ErrorValue(Fatal, ToDword(sig), name))]
  }

  const UNSTABLE_FORMAT := "Server Unstable: %s\n"
  const NAME_FORMAT := "%s\n"

  lemma LogFormats()
    ensures UNSTABLE_FORMAT == "Server Unstable: " + (['%', 's'] + "\n")
    ensures NAME_FORMAT == "" + (['%', 's'] + "\n")
    ensures Plain("Server Unstable: ") && Plain("") && Plain("\n") && Plain(BREAK_MESSAGE)
  {
  }

  /** The terminate handler logs what the source's format prints for the
      signal's name. */
  lemma UnstableLineMatchesSource(sig: i32, name: string)
    ensures Sprintf(UNSTABLE_FORMAT, [Str(name)]) == Some(SignalTerminate(sig, name)[0].text)
  {
    LogFormats();
    SprintfPlain("\n", []);
    SprintfStep("Server Unstable: ", 's', "\n", Str(name), name, []);
    Regroup3("Server Unstable: ", name, "\n");
    assert [Str(name)] + [] == [Str(name)];
  }

  /** The illegal-instruction handler logs the signal's name on a line of
      its own. */
  lemma NameLineMatchesSource(sig: i32, name: string)
    ensures Sprintf(NAME_FORMAT, [Str(name)]) == Some(SignalIllegalInstruction(sig, name)[0].text)
  {
    LogFormats();
    SprintfPlain("\n", []);
    SprintfStep("", 's', "\n", Str(name), name, []);
    assert [Str(name)] + [] == [Str(name)];
  }

  /** The interrupt handler's line has no conversion and prints as is. */
  lemma BreakLineMatchesSource(sig: i32)
    ensures Sprintf(BREAK_MESSAGE, []) == Some(SignalBreak(sig)[0].text)
  {
    LogFormats();
    SprintfPlain(BREAK_MESSAGE, []);
  }

  /** The number of children a trace collects. */
  function Reaped(t: seq<Action>): nat {
    if |t| == 0 then 0
    else (if t[0] == Poll(true) then 1 else 0) + Reaped(t[1..])
  }

  lemma {:induction false} ReapedAppend(a: seq<Action>, b: seq<Action>)
    ensures Reaped(a + b) == Reaped(a) + Reaped(b)
    decreases |a|
  {
    if |a| > 0 {
      assert (a + b)[1..] == a[1..] + b;
      ReapedAppend(a[1..], b);
    } else {
      assert a + b == b;
    }
  }

  /** `Signal_Children`: poll without blocking while a poll reaps a child.
      `answers` are the successive values `waitpid` returns; the loop polls
      up to and including the first one that is not positive, and each poll
      reaps exactly when its answer is positive. When the answers run out
      before a non-positive one, the model stops with them. */
  method SignalChildren(answers: seq<int>) returns (t: seq<Action>)
    ensures |t| <= |answers|
    ensures forall i :: 0 <= i < |t| ==> t[i] == Poll(answers[i] > 0)
    ensures forall i :: 0 <= i < |t| - 1 ==> answers[i] > 0
    ensures (0 < |t| && answers[|t| - 1] <= 0)
            || (|t| == |answers| && forall i :: 0 <= i < |answers| ==> answers[i] > 0)
    ensures Reaped(t) == (if 0 < |t| && answers[|t| - 1] <= 0 then |t| - 1 else |t|)
  {
    t := [];
    var stopped := false;
    while |t| < |answers| && !stopped
      invariant |t| <= |answers|
      invariant forall i :: 0 <= i < |t| ==> t[i] == Poll(answers[i] > 0)
      invariant stopped <==> 0 < |t| && answers[|t| - 1] <= 0
      invariant forall i :: 0 <= i < |t| - 1 ==> answers[i] > 0
      invariant !stopped ==> forall i :: 0 <= i < |t| ==> answers[i] > 0
      invariant Reaped(t) == (if stopped then |t| - 1 else |t|)
      decreases |answers| - |t|
    {
      var reaped := answers[|t|] > 0;
      ReapedAppend(t, [Poll(reaped)]);
      t := t + [Poll(reaped)];
      stopped := !reaped;
    }
  }

  /** With `pending` exited children, `waitpid` reaps each one and then
      reports none left: the handler polls `pending + 1` times, collects
      every child, and stops at the first poll that finds none. */
  method SignalChildrenCollectsPending(pending: nat) returns (t: seq<Action>)
    ensures |t| == pending + 1 && Reaped(t) == pending
    ensures forall i :: 0 <= i < |t| ==> t[i].Poll? && (t[i].reaped <==> i < |t| - 1)
  {
    var answers := seq(pending, _ => 1) + [0];
    assert answers[pending] == 0;
    t := SignalChildren(answers);
    assert forall i :: 0 <= i < pending ==> answers[i] > 0;
  }

  /** The hang-up handler forces exactly one save when no resync pause is
      on and none otherwise, and sets the exit flag exactly once, as its last
      action, with the hang-up signal as the reason. */
  lemma HangupSavesUnlessPaused(resyncPause: bool)
    ensures Save(true) in SignalHangup(resyncPause) <==> !resyncPause
    ensures Saves(SignalHangup(resyncPause)) == (if resyncPause then 0 else 1)
    ensures forall a :: a in SignalHangup(resyncPause) && a.Save? ==> a.forced
    ensures ExitFlags(SignalHangup(resyncPause)) == 1
    ensures SignalHangup(resyncPause)[|SignalHangup(resyncPause)| - 1] == SetExitFlag(SIGHUP)
    ensures Executed(SignalHangup(resyncPause)) == SignalHangup(resyncPause)
  {
    var save: seq<Action> := if resyncPause then [] else [Save(true)];
    ExitFlagsAppend(save, [SetExitFlag(SIGHUP)]);
    SavesAppend(save, [SetExitFlag(SIGHUP)]);
  }

  /** The interrupt handler never asks the server to exit. */
  lemma BreakNeverExits(sig: i32)
    ensures ExitFlags(SignalBreak(sig)) == 0
  {
    NoExitFlags(SignalBreak(sig));
  }

  /** The illegal-instruction handler never sets the exit flag; it ends by
      raising a fatal error that carries the signal and its name. */
  lemma IllegalInstructionRaises(sig: i32, name: string)
    ensures ExitFlags(SignalIllegalInstruction(sig, name)) == 0
    ensures Executed(SignalIllegalInstruction(sig, name)) == SignalIllegalInstruction(sig, name)
    ensures SignalIllegalInstruction(sig, name)[|SignalIllegalInstruction(sig, name)| - 1]
            == Raise(ErrorValue(Fatal, ToDword(sig), name))
    ensures 0 <= sig ==> SignalIllegalInstruction(sig, name)[|SignalIllegalInstruction(sig, name)| - 1]
                         == Raise(ErrorValue(Fatal, sig, name))
  {
    NoExitFlags(SignalIllegalInstruction(sig, name));
  }

  /** The terminate handler sets the exit flag only after the thread has
      exited, so the effects that take place never include it. */
  lemma TerminateNeverReachesExitFlag(sig: i32, name: string)
    ensures forall j :: 0 <= j < |SignalTerminate(sig, name)| && SignalTerminate(sig, name)[j].SetExitFlag? ==>
              exists k :: 0 <= k < j && SignalTerminate(sig, name)[k] == ThreadExit
    ensures Executed(SignalTerminate(sig, name))[|Executed(SignalTerminate(sig, name))| - 1] == ThreadExit
    ensures ExitFlags(SignalTerminate(sig, name)) == 1
    ensures ExitFlags(Executed(SignalTerminate(sig, name))) == 0
  {
    var t := SignalTerminate(sig, name);
    var head := [Log(Fatal, "Server Unstable: " + name + "\n")] + RearmAndUnblock(sig, Terminate);
    assert t == head + [ThreadExit] + [SetExitFlag(SIGABRT)];
    assert |t| - 1 == |head| + 1;
    forall j | 0 <= j < |t| && t[j].SetExitFlag?
      ensures exists k :: 0 <= k < j && t[k] == ThreadExit
    {
      assert t[|head|] == ThreadExit;
    }
    ExecutedOfPrefix(head, [ThreadExit, SetExitFlag(SIGABRT)]);
    assert t == head + [ThreadExit, SetExitFlag(SIGABRT)];
    NoExitFlags(head + [ThreadExit]);
    ExitFlagsAppend(head + [ThreadExit], [SetExitFlag(SIGABRT)]);
  }

  /** For a real signal the handler reinstalls itself and then unblocks the
      signal, within the effects that take place; called directly (signal
      0) it does neither. */
  predicate RearmsBeforeUnblocking(t: seq<Action>, sig: int, handler: Disposition) {
    && (sig == 0 ==> forall i :: 0 <= i < |t| ==> !t[i].Rearm? && !t[i].Unblock?)
    && (sig != 0 ==> exists i :: 0 <= i < |t| - 1 && t[i] == Rearm(sig, handler) && t[i + 1] == Unblock(sig))
    && (forall i :: 0 <= i < |t| && t[i].Unblock? ==> 0 < i && t[i - 1] == Rearm(sig, handler))
  }

  /** Neither a re-arm nor an unblock. */
  predicate Bookkeeping(a: Action) {
    !a.Rearm? && !a.Unblock?
  }

  /** The shape the three re-arming handlers share: a log entry, the
      re-arm and unblock for a real signal, and at most one action that
      ends the handler. */
  lemma ShapeRearmsBeforeUnblocking(log: Action, sig: int, handler: Disposition, end: seq<Action>)
    requires Bookkeeping(log) && |end| <= 1 && (|end| == 1 ==> Bookkeeping(end[0]))
    ensures RearmsBeforeUnblocking([log] + RearmAndUnblock(sig, handler) + end, sig, handler)
  {
    var t := [log] + RearmAndUnblock(sig, handler) + end;
    if sig != 0 {
      assert t[1] == Rearm(sig, handler) && t[2] == Unblock(sig);
    }
  }

  lemma ShapeExecuted(log: Action, sig: int, handler: Disposition, tail: seq<Action>)
    requires !Ends(log) && |tail| > 0 && Ends(tail[0])
    ensures Executed([log] + RearmAndUnblock(sig, handler) + tail) == [log] + RearmAndUnblock(sig, handler) + [tail[0]]
  {
    var head := [log] + RearmAndUnblock(sig, handler);
    if sig != 0 {
      assert head == [log, Rearm(sig, handler), Unblock(sig)];
    } else {
      assert head == [log];
    }
    ExecutedOfPrefix(head, tail);
  }

  /** Everything up to the first action that ends the handler takes
      effect, and nothing after it. */
  lemma {:induction false} ExecutedOfPrefix(head: seq<Action>, tail: seq<Action>)
    requires forall i :: 0 <= i < |head| ==> !Ends(head[i])
    requires |tail| > 0 && Ends(tail[0])
    ensures Executed(head + tail) == head + [tail[0]]
    decreases |head|
  {
    if |head| > 0 {
      assert (head + tail)[1..] == head[1..] + tail;
      ExecutedOfPrefix(head[1..], tail);
      assert [head[0]] + (head[1..] + [tail[0]]) == head + [tail[0]];
    } else {
      assert head + tail == tail;
    }
  }

  lemma RearmingHandlers(sig: i32, name: string)
    ensures RearmsBeforeUnblocking(Executed(SignalTerminate(sig, name)), sig, Terminate)
    ensures RearmsBeforeUnblocking(Executed(SignalBreak(sig)), sig, Break)
    ensures RearmsBeforeUnblocking(Executed(SignalIllegalInstruction(sig, name)), sig, IllegalInstruction)
  {
    var log := Log(Fatal, "Server Unstable: " + name + "\n");
    ShapeExecuted(log, sig, Terminate, [ThreadExit, SetExitFlag(SIGABRT)]);
    ShapeRearmsBeforeUnblocking(log, sig, Terminate, [ThreadExit]);
    var raise := Raise(ErrorValue(Fatal, ToDword(sig), name));
    ShapeExecuted(Log(Fatal, name + "\n"), sig, IllegalInstruction, [raise]);
    ShapeRearmsBeforeUnblocking(Log(Fatal, name + "\n"), sig, IllegalInstruction, [raise]);
    BreakAlwaysReturns(sig);
    ShapeRearmsBeforeUnblocking(Log(Fatal, BREAK_MESSAGE), sig, Break, []);
    assert SignalBreak(sig) == [Log(Fatal, BREAK_MESSAGE)] + RearmAndUnblock(sig, Break) + [];
  }

  lemma {:induction false} BreakAlwaysReturns(sig: i32)
    ensures Executed(SignalBreak(sig)) == SignalBreak(sig)
  {
    var t := SignalBreak(sig);
    assert !Ends(t[0]);
    if sig != 0 {
      assert t[1..] == [Rearm(sig, Break), Unblock(sig)];
      assert t[2..] == [Unblock(sig)];
    } else {
      assert t[1..] == [];
    }
  }

  /** The effect of the `Rearm` actions of a trace on the signal table. */
  function ApplyRearms(table: Table, t: seq<Action>): Table
    decreases |t|
  {
    if |t| == 0 then table
    else ApplyRearms(if t[0].Rearm? then table[t[0].sig := t[0].handler] else table, t[1..])
  }

  lemma {:induction false} NoRearmsKeepTable(table: Table, t: seq<Action>)
    requires forall i :: 0 <= i < |t| ==> !t[i].Rearm?
    ensures ApplyRearms(table, t) == table
    decreases |t|
  {
    if |t| > 0 {
      NoRearmsKeepTable(table, t[1..]);
    }
  }

  /** Delivery under reset-on-delivery semantics: the signal reverts to its
      default before the handler runs. */
  function Deliver(table: Table, sig: int): Table {
    table[sig := Default]
  }

  lemma ShapeRestores(table: Table, log: Action, sig: int, handler: Disposition, end: seq<Action>)
    requires sig != 0 && sig in table && table[sig] == handler
    requires Bookkeeping(log) && |end| <= 1 && (|end| == 1 ==> Bookkeeping(end[0]))
    ensures ApplyRearms(Deliver(table, sig), [log] + RearmAndUnblock(sig, handler) + end) == table
  {
    var t := [log] + RearmAndUnblock(sig, handler) + end;
    var delivered := Deliver(table, sig);
    assert t[1..] == [Rearm(sig, handler), Unblock(sig)] + end;
    assert t[2..] == [Unblock(sig)] + end;
    assert t[3..] == end;
    assert delivered[sig := handler] == table;
    NoRearmsKeepTable(table, end);
    assert ApplyRearms(delivered, t) == ApplyRearms(delivered, t[1..]);
    assert ApplyRearms(delivered, t[1..]) == ApplyRearms(table, t[2..]);
    assert ApplyRearms(table, t[2..]) == ApplyRearms(table, t[3..]);
  }

  /** Under reset-on-delivery semantics, a re-arming handler puts the table
      back exactly as `SetUnixSignals(true)` left it, for every signal
      routed to it. */
  lemma HandlersRestoreTable(base: Table, sig: i32, name: string)
    requires sig in MANAGED
    ensures Route(sig) == Some(Terminate) ==>
      ApplyRearms(Deliver(SetUnixSignals(base, true), sig), Executed(SignalTerminate(sig, name))) == SetUnixSignals(base, true)
    ensures Route(sig) == Some(Break) ==>
      ApplyRearms(Deliver(SetUnixSignals(base, true), sig), Executed(SignalBreak(sig))) == SetUnixSignals(base, true)
    ensures Route(sig) == Some(IllegalInstruction) ==>
      ApplyRearms(Deliver(SetUnixSignals(base, true), sig), Executed(SignalIllegalInstruction(sig, name))) == SetUnixSignals(base, true)
  {
    var installed := SetUnixSignals(base, true);
    var route := Route(sig).value;
    if route == Terminate {
      var log := Log(Fatal, "Server Unstable: " + name + "\n");
      ShapeExecuted(log, sig, Terminate, [ThreadExit, SetExitFlag(SIGABRT)]);
      ShapeRestores(installed, log, sig, Terminate, [ThreadExit]);
    } else if route == Break {
      BreakAlwaysReturns(sig);
      ShapeRestores(installed, Log(Fatal, BREAK_MESSAGE), sig, Break, []);
      assert SignalBreak(sig) == [Log(Fatal, BREAK_MESSAGE)] + RearmAndUnblock(sig, Break) + [];
    } else if route == IllegalInstruction {
      var raise := Raise(ErrorValue(Fatal, ToDword(sig), name));
      ShapeExecuted(Log(Fatal, name + "\n"), sig, IllegalInstruction, [raise]);
      ShapeRestores(installed, Log(Fatal, name + "\n"), sig, IllegalInstruction, [raise]);
    }
  }

  /** The hang-up handler does not re-arm: under reset-on-delivery
      semantics a second hang-up meets the default disposition. */
  lemma HangupIsNotRearmed(table: Table, resyncPause: bool)
    ensures forall i :: 0 <= i < |SignalHangup(resyncPause)| ==> !SignalHangup(resyncPause)[i].Rearm?
    ensures ApplyRearms(Deliver(table, SIGHUP), SignalHangup(resyncPause)) == Deliver(table, SIGHUP)
    ensures ApplyRearms(Deliver(table, SIGHUP), SignalHangup(resyncPause))[SIGHUP] == Default
  {
    NoRearmsKeepTable(Deliver(table, SIGHUP), SignalHangup(resyncPause));
  }
}
