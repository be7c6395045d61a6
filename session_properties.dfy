/**
  What the deet session promises (deet/src/debugger.rs): how `run`,
  `cont`, `backtrace` and `quit` treat the held inferior, how the prompt
  loop ends, and that recorded breakpoints are never forgotten.
*/
module SessionProperties {
  import opened Words
  import opened Options
  import opened InferiorProcess
  import opened InferiorProperties
  import opened DebuggerCommands
  import opened Session

  /** `to_kill` keeps the held child, now dead, with its memory and registers; with no child it does nothing. */
  lemma KillKeepsChild(v: SessionView)
    ensures v.child.None? ==> KillSpec(v) == (v, [])
    ensures v.child.Some? ==>
              var (v', out) := KillSpec(v);
              && v'.table == v.table && v'.child.Some?
              && v'.child.value.pid == v.child.value.pid
              && !v'.child.value.machine.alive
              && v'.child.value.machine.mem == v.child.value.machine.mem
              && v'.child.value.machine.regs == v.child.value.machine.regs
              && out == [Killing(v.child.value.pid)]
  {
  }

  /** `run` kills the held child before anything else, and never ends the session by itself quitting. */
  lemma RunKillsFirst(v: SessionView, target: string, breakset: seq<Word>, args: seq<string>,
                      k: Kernel, resolve: Word -> Frame, fuel: nat)
    ensures var (_, o, out) := DispatchSpec(v, Run(args), target, breakset, k, resolve, fuel);
            KillSpec(v).1 <= out && o != Quitted
  {
  }

  /** A launch that does not stop at its first SIGTRAP leaves the killed child held and reports the failure. */
  lemma RunFailedLaunch(v: SessionView, target: string, breakset: seq<Word>, args: seq<string>,
                        k: Kernel, resolve: Word -> Frame, fuel: nat)
    requires !TrappedAtStart(k.spawn(target, args))
    ensures DispatchSpec(v, Run(args), target, breakset, k, resolve, fuel)
            == (KillSpec(v).0, Running, KillSpec(v).1 + [StartFailed])
  {
  }

  /**
    A successful launch replaces the held child by the new one, with the
    breakpoints installed, continued exactly once; its status is the last
    thing printed.
  */
  lemma RunReplacesChild(v: SessionView, target: string, breakset: seq<Word>, args: seq<string>,
                         k: Kernel, resolve: Word -> Frame, fuel: nat)
    requires TrappedAtStart(k.spawn(target, args))
    requires AllReadable(k.spawn(target, args).first.mem, breakset)
    ensures var launch := k.spawn(target, args);
            var (mem, table) := Install(launch.first.mem, v.table, breakset);
            var (m, r) := ContExecSpec(Machine(mem, launch.first.regs, true), table, k);
            var (v', o, out) := DispatchSpec(v, Run(args), target, breakset, k, resolve, fuel);
            && v' == SessionView(Some(Child(launch.pid, m)), table)
            && o == Running
            && out == KillSpec(v).1 + [StatusReply(r)]
  {
  }

  /** With no child, `cont` and `backtrace` print an error and change nothing. */
  lemma NoChildNoChange(v: SessionView, cmd: DebuggerCommand, target: string, breakset: seq<Word>,
                        k: Kernel, resolve: Word -> Frame, fuel: nat)
    requires v.child.None? && (cmd == Cont || cmd == Back)
    ensures DispatchSpec(v, cmd, target, breakset, k, resolve, fuel) == (v, Running, [NoChildRunning])
  {
  }

  /** `cont` continues the held child in place: same process, same breakpoint table. */
  lemma ContKeepsChild(v: SessionView, target: string, breakset: seq<Word>,
                       k: Kernel, resolve: Word -> Frame, fuel: nat)
    requires v.child.Some?
    ensures var (v', o, out) := DispatchSpec(v, Cont, target, breakset, k, resolve, fuel);
            var (m, r) := ContExecSpec(v.child.value.machine, v.table, k);
            && v' == SessionView(Some(Child(v.child.value.pid, m)), v.table)
            && o == Running && out == [StatusReply(r)]
  {
  }

  /** `backtrace` changes nothing; it panics exactly when the held child has ended. */
  lemma BackChangesNothing(v: SessionView, target: string, breakset: seq<Word>,
                           k: Kernel, resolve: Word -> Frame, fuel: nat)
    ensures var (v', o, _) := DispatchSpec(v, Back, target, breakset, k, resolve, fuel);
            v' == v && (o == Panicked <==> v.child.Some? && !v.child.value.machine.alive)
  {
  }

  /** Only `quit` ends the session normally, and it leaves no live child. */
  lemma QuitKillsAndExits(v: SessionView, cmd: DebuggerCommand, target: string, breakset: seq<Word>,
                          k: Kernel, resolve: Word -> Frame, fuel: nat)
    ensures var (v', o, _) := DispatchSpec(v, cmd, target, breakset, k, resolve, fuel);
            (o == Quitted <==> cmd == Quit)
            && (o == Quitted ==> v' == KillSpec(v).0 && (v'.child.Some? ==> !v'.child.value.machine.alive))
  {
  }

  /** The backtrace prints one line per frame, in order, then the read error that ended it, if any. */
  lemma {:induction false} BacktraceRepliesFrames(bt: Backtrace)
    ensures var out := BacktraceReplies(bt);
            && |out| == |bt.frames| + (if bt.end.ReadFailed? then 1 else 0)
            && (forall i | 0 <= i < |bt.frames| :: out[i] == FrameLine(bt.frames[i]))
            && (bt.end.ReadFailed? ==> out[|bt.frames|] == ChildError(bt.end.error))
    decreases |bt.frames|
  {
    if bt.frames != [] {
      var rest := Backtrace(bt.frames[1..], bt.end);
      BacktraceRepliesFrames(rest);
    }
  }

  /** End of file at the prompt quits: the held child is killed and the session ends. */
  lemma EofQuits(v: SessionView, script: seq<Input>, pos: nat, target: string, breakset: seq<Word>,
                 k: Kernel, resolve: Word -> Frame, fuel: nat)
    requires pos < |script| && script[pos] == Eof
    ensures SessionSpec(v, script, pos, target, breakset, k, resolve, fuel) == (KillSpec(v).0, Quitted, KillSpec(v).1)
  {
    assert [] + KillSpec(v).1 == KillSpec(v).1;
  }

  /** A blank line is skipped without a word. */
  lemma BlankLineSkipped(v: SessionView, script: seq<Input>, pos: nat, target: string, breakset: seq<Word>,
                         k: Kernel, resolve: Word -> Frame, fuel: nat)
    requires pos < |script| && script[pos].Line? && IsBlank(script[pos].text)
    ensures SessionSpec(v, script, pos, target, breakset, k, resolve, fuel)
            == SessionSpec(v, script, pos + 1, target, breakset, k, resolve, fuel)
  {
  }

  /** The session always ends, by `quit` (or end of input) or by a panic, never still running. */
  lemma {:induction false} SessionEnds(v: SessionView, script: seq<Input>, pos: nat, target: string,
                                       breakset: seq<Word>, k: Kernel, resolve: Word -> Frame, fuel: nat)
    requires pos <= |script|
    ensures SessionSpec(v, script, pos, target, breakset, k, resolve, fuel).1 != Running
    decreases |script| - pos
  {
    var (p, next, _) := NextCommandSpec(script, pos);
    if p.Command? {
      var (v', o, _) := DispatchSpec(v, p.cmd, target, breakset, k, resolve, fuel);
      if o == Running {
        SessionEnds(v', script, next, target, breakset, k, resolve, fuel);
      }
    }
  }

  /** A session that quits leaves no live child behind. */
  lemma {:induction false} QuitLeavesNoLiveChild(v: SessionView, script: seq<Input>, pos: nat, target: string,
                                                 breakset: seq<Word>, k: Kernel, resolve: Word -> Frame, fuel: nat)
    requires pos <= |script|
    ensures var (v', o, _) := SessionSpec(v, script, pos, target, breakset, k, resolve, fuel);
            o == Quitted && v'.child.Some? ==> !v'.child.value.machine.alive
    decreases |script| - pos
  {
    var (p, next, _) := NextCommandSpec(script, pos);
    if p.Command? {
      var (v', o, _) := DispatchSpec(v, p.cmd, target, breakset, k, resolve, fuel);
      QuitKillsAndExits(v, p.cmd, target, breakset, k, resolve, fuel);
      if o == Running {
        QuitLeavesNoLiveChild(v', script, next, target, breakset, k, resolve, fuel);
      }
    }
  }

  /** Installing breakpoints only adds entries to the table. */
  lemma InstallKeepsEntries(mem: Memory, table: BreakpointTable, addrs: seq<Word>)
    requires AllReadable(mem, addrs)
    ensures table.Keys <= Install(mem, table, addrs).1.Keys
  {
    forall key | key in table ensures key in Install(mem, table, addrs).1 {
      InstallKeys(mem, table, addrs, key);
    }
  }

  /** No command forgets a recorded breakpoint. */
  lemma DispatchKeepsBreakpoints(v: SessionView, cmd: DebuggerCommand, target: string, breakset: seq<Word>,
                                 k: Kernel, resolve: Word -> Frame, fuel: nat)
    ensures v.table.Keys <= DispatchSpec(v, cmd, target, breakset, k, resolve, fuel).0.table.Keys
  {
    if cmd.Run? {
      var launch := k.spawn(target, cmd.args);
      if TrappedAtStart(launch) && AllReadable(launch.first.mem, breakset) {
        InstallKeepsEntries(launch.first.mem, v.table, breakset);
      }
    }
  }

  /** Over a whole session, the breakpoint table only grows. */
  lemma {:induction false} SessionKeepsBreakpoints(v: SessionView, script: seq<Input>, pos: nat, target: string,
                                                   breakset: seq<Word>, k: Kernel, resolve: Word -> Frame, fuel: nat)
    requires pos <= |script|
    ensures v.table.Keys <= SessionSpec(v, script, pos, target, breakset, k, resolve, fuel).0.table.Keys
    decreases |script| - pos
  {
    var (p, next, _) := NextCommandSpec(script, pos);
    if p.Command? {
      var (v', o, _) := DispatchSpec(v, p.cmd, target, breakset, k, resolve, fuel);
      DispatchKeepsBreakpoints(v, p.cmd, target, breakset, k, resolve, fuel);
      if o == Running {
        SessionKeepsBreakpoints(v', script, next, target, breakset, k, resolve, fuel);
      }
    }
  }

  /** Every breakpoint the table records is one of the session's breakpoint addresses. */
  predicate WithinBreakset(table: BreakpointTable, breakset: seq<Word>) {
    forall key :: key in table ==> key.value in breakset
  }

  /** No command records a breakpoint outside the session's breakpoint addresses. */
  lemma DispatchStaysWithinBreakset(v: SessionView, cmd: DebuggerCommand, target: string, breakset: seq<Word>,
                                    k: Kernel, resolve: Word -> Frame, fuel: nat)
    requires WithinBreakset(v.table, breakset)
    ensures WithinBreakset(DispatchSpec(v, cmd, target, breakset, k, resolve, fuel).0.table, breakset)
  {
    if cmd.Run? {
      var launch := k.spawn(target, cmd.args);
      if TrappedAtStart(launch) && AllReadable(launch.first.mem, breakset) {
        var table' := Install(launch.first.mem, v.table, breakset).1;
        forall key | key in table' ensures key.value in breakset {
          InstallKeys(launch.first.mem, v.table, breakset, key);
        }
      }
    }
  }

  /**
    Over a whole session the table holds only the session's breakpoint
    addresses; the debugger starts with an empty table, which does.
  */
  lemma {:induction false} SessionStaysWithinBreakset(v: SessionView, script: seq<Input>, pos: nat, target: string,
                                                      breakset: seq<Word>, k: Kernel, resolve: Word -> Frame, fuel: nat)
    requires pos <= |script|
    requires WithinBreakset(v.table, breakset)
    ensures WithinBreakset(SessionSpec(v, script, pos, target, breakset, k, resolve, fuel).0.table, breakset)
    decreases |script| - pos
  {
    var (p, next, _) := NextCommandSpec(script, pos);
    if p.Command? {
      var (v', o, _) := DispatchSpec(v, p.cmd, target, breakset, k, resolve, fuel);
      DispatchStaysWithinBreakset(v, p.cmd, target, breakset, k, resolve, fuel);
      if o == Running {
        SessionStaysWithinBreakset(v', script, next, target, breakset, k, resolve, fuel);
      }
    }
  }

  /**
    Every `run` hands `cont_exec` a child whose recorded breakpoints all hold
    the trap opcode, so each breakpoint traps on its first pass; the
    step-over keeps them armed on later passes.
  */
  lemma RunArmsBreakpoints(v: SessionView, target: string, breakset: seq<Word>, args: seq<string>, k: Kernel)
    requires WithinBreakset(v.table, breakset)
    requires TrappedAtStart(k.spawn(target, args))
    requires AllReadable(k.spawn(target, args).first.mem, breakset)
    ensures var (mem, table) := Install(k.spawn(target, args).first.mem, v.table, breakset);
            Armed(mem, table)
  {
    InstallArms(k.spawn(target, args).first.mem, v.table, breakset);
  }
}
