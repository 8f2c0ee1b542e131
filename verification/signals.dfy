/** `SetUnixSignals`: the disposition the server gives each of ten POSIX
    signals (IEEE Std 1003.1, `<signal.h>`), as a total function on the
    signal table. Signal numbers are the Linux ones. */
module Signals {
  import opened Wrappers

  const SIGHUP: int := 1
  const SIGINT: int := 2
  const SIGQUIT: int := 3
  const SIGILL: int := 4
  const SIGABRT: int := 6
  const SIGFPE: int := 8
  const SIGSEGV: int := 11
  const SIGPIPE: int := 13
  const SIGTERM: int := 15
  const SIGCHLD: int := 17

  /** What runs when a signal is delivered: one of the server's handlers,
      "ignore", or the system default. */
  datatype Disposition =
    | Hangup
    | Terminate
    | Break
    | IllegalInstruction
    | Children
    | Ignore
    | Default

  /** The disposition of every signal that has one. */
  type Table = map<int, Disposition>

  /** The ten signals the server manages. */
  const MANAGED: set<int> := {SIGHUP, SIGTERM, SIGQUIT, SIGABRT, SIGILL, SIGINT, SIGSEGV, SIGFPE, SIGPIPE, SIGCHLD}

  /** The server's routing, signal by signal: exactly the ten managed
      signals have a disposition, and none of them is the default. */
  function Route(sig: int): (r: Option<Disposition>)
    ensures r.Some? <==> sig in MANAGED
    ensures r.Some? ==> r.value != Default
  {
    if sig == SIGHUP then Some(Hangup)
    else if sig == SIGTERM || sig == SIGQUIT || sig == SIGABRT || sig == SIGILL then Some(Terminate)
    else if sig == SIGINT then Some(Break)
    else if sig == SIGSEGV || sig == SIGFPE then Some(IllegalInstruction)
    else if sig == SIGPIPE then Some(Ignore)
    else if sig == SIGCHLD then Some(Children)
    else None
  }

  /** The ten `signal` calls in source order: each managed signal gets its
      handler when installing and the default when not; every other entry
      of the table is left alone. */
  function SetUnixSignals(table: Table, install: bool): (r: Table)
    ensures forall sig :: sig in MANAGED ==> sig in r && r[sig] == (if install then Route(sig).value else Default)
    ensures forall sig :: sig !in MANAGED ==> (sig in r <==> sig in table)
    ensures forall sig :: sig !in MANAGED && sig in table ==> r[sig] == table[sig]
  {
    table[SIGHUP := if install then Hangup else Default]
         [SIGTERM := if install then Terminate else Default]
         [SIGQUIT := if install then Terminate else Default]
         [SIGABRT := if install then Terminate else Default]
         [SIGILL := if install then Terminate else Default]
         [SIGINT := if install then Break else Default]
         [SIGSEGV := if install then IllegalInstruction else Default]
         [SIGFPE := if install then IllegalInstruction else Default]
         [SIGPIPE := if install then Ignore else Default]
         [SIGCHLD := if install then Children else Default]
  }

  /** An illegal instruction is routed to the terminate handler, not to the
      illegal-instruction handler; segmentation faults and arithmetic
      faults are. */
  lemma IllegalInstructionTerminates(table: Table)
    ensures SetUnixSignals(table, true)[SIGILL] == Terminate
    ensures SetUnixSignals(table, true)[SIGSEGV] == IllegalInstruction
    ensures SetUnixSignals(table, true)[SIGFPE] == IllegalInstruction
  {
  }

  /** Two tables that agree outside the managed signals agree after
      the call. */
  lemma {:induction false} OnlyUnmanagedEntriesMatter(t1: Table, t2: Table, install: bool)
    requires forall sig :: sig !in MANAGED ==> (sig in t1 <==> sig in t2)
    requires forall sig :: sig !in MANAGED && sig in t1 ==> t1[sig] == t2[sig]
    ensures SetUnixSignals(t1, install) == SetUnixSignals(t2, install)
  {
    var r1, r2 := SetUnixSignals(t1, install), SetUnixSignals(t2, install);
    forall sig
      ensures sig in r1 <==> sig in r2
    {
      if sig !in MANAGED {
        assert sig in r1 <==> sig in t1;
      }
    }
    assert r1.Keys == r2.Keys;
    forall sig | sig in r1
      ensures r1[sig] == r2[sig]
    {
    }
  }

  /** Of two calls the last one decides. */
  lemma LastCallWins(table: Table, first: bool, second: bool)
    ensures SetUnixSignals(SetUnixSignals(table, first), second) == SetUnixSignals(table, second)
  {
    OnlyUnmanagedEntriesMatter(SetUnixSignals(table, first), table, second);
  }

  /** Calling twice with the same flag is the same as calling once. */
  lemma Idempotent(table: Table, install: bool)
    ensures SetUnixSignals(SetUnixSignals(table, install), install) == SetUnixSignals(table, install)
  {
    LastCallWins(table, install, install);
  }

  /** Uninstalling after installing gives back a table in which the ten
      managed signals had their defaults. Uninstalling writes the default
      rather than the earlier disposition, so no other table is restored:
      see UninstallForgetsIgnoredPipe. */
  lemma {:induction false} UninstallRestores(table: Table)
    requires forall sig :: sig in MANAGED ==> sig in table && table[sig] == Default
    ensures SetUnixSignals(SetUnixSignals(table, true), false) == table
  {
    var installed := SetUnixSignals(table, true);
    var r := SetUnixSignals(installed, false);
    forall sig
      ensures sig in r <==> sig in table
    {
      if sig !in MANAGED {
        assert sig in r <==> sig in installed;
      }
    }
    assert r.Keys == table.Keys;
    forall sig | sig in table
      ensures r[sig] == table[sig]
    {
      if sig !in MANAGED {
        assert r[sig] == installed[sig];
      }
    }
  }

  /** A table that ignored SIGPIPE before installation does not get that
      back: uninstalling leaves SIGPIPE at the default. */
  lemma UninstallForgetsIgnoredPipe(table: Table)
    requires SIGPIPE in table && table[SIGPIPE] == Ignore
    ensures SetUnixSignals(SetUnixSignals(table, true), false)[SIGPIPE] == Default
    ensures SetUnixSignals(SetUnixSignals(table, true), false) != table
  {
    var r := SetUnixSignals(SetUnixSignals(table, true), false);
    assert SIGPIPE in MANAGED;
    assert r[SIGPIPE] == Default;
  }
}
