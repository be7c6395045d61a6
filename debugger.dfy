/**
  The deet session controller (deet/src/debugger.rs): the prompt loop of
  `get_next_command`, the dispatch of `Debugger::run` over the optional
  inferior, and `to_kill`.

  The terminal is a script: the sequence of results `readline` returns,
  one per prompt; when the script is used up, `readline` reports end of
  file. Printed lines are collected as `Reply` values, in order. A panic
  of the source ends the session with the outcome `Panicked`.
*/
module Session {
  import opened Words
  import opened Options
  import opened InferiorProcess
  import opened DebuggerCommands

  // ---------------------------------------------------------------------------
  // Reading a command

  /** `char::is_whitespace`: the characters with the Unicode White_Space property. */
  predicate IsWhitespace(c: char) {
    var n := c as int;
    (0x09 <= n <= 0x0D) || n == 0x20 || n == 0x85 || n == 0xA0 || n == 0x1680
    || (0x2000 <= n <= 0x200A) || n == 0x2028 || n == 0x2029 || n == 0x202F
    || n == 0x205F || n == 0x3000
  }

  /** A line that is empty once trimmed (`line.trim().len() == 0`). */
  predicate IsBlank(line: string) {
    forall i | 0 <= i < |line| :: IsWhitespace(line[i])
  }

  /** Length of the run of non-whitespace characters at the start of `s`. */
  function WordLength(s: string): (n: nat)
    ensures n <= |s|
    ensures forall i | 0 <= i < n :: !IsWhitespace(s[i])
    ensures n < |s| ==> IsWhitespace(s[n])
  {
    if s == [] || IsWhitespace(s[0]) then 0 else 1 + WordLength(s[1..])
  }

  /** `str::split_whitespace`: the maximal runs of non-whitespace characters, in order. */
  function SplitWhitespace(s: string): seq<string>
    decreases |s|
  {
    if s == [] then []
    else if IsWhitespace(s[0]) then SplitWhitespace(s[1..])
    else
      var n := WordLength(s);
      [s[..n]] + SplitWhitespace(s[n..])
  }

  /** The characters of `s` that are not whitespace, in order. */
  function NonWhitespace(s: string): string {
    if s == [] then []
    else if IsWhitespace(s[0]) then NonWhitespace(s[1..])
    else [s[0]] + NonWhitespace(s[1..])
  }

  function Concat(tokens: seq<string>): string {
    if tokens == [] then [] else tokens[0] + Concat(tokens[1..])
  }

  /** Every token is non-empty and holds no whitespace. */
  lemma {:induction false} SplitWhitespaceWords(s: string)
    ensures forall t | t in SplitWhitespace(s) :: |t| > 0 && forall i | 0 <= i < |t| :: !IsWhitespace(t[i])
    decreases |s|
  {
    if s == [] {
    } else if IsWhitespace(s[0]) {
      SplitWhitespaceWords(s[1..]);
    } else {
      SplitWhitespaceWords(s[WordLength(s)..]);
    }
  }

  /** The tokens, put back together, are the line with its whitespace removed. */
  lemma {:induction false} SplitWhitespaceConcat(s: string)
    ensures Concat(SplitWhitespace(s)) == NonWhitespace(s)
    decreases |s|
  {
    if s == [] {
    } else if IsWhitespace(s[0]) {
      SplitWhitespaceConcat(s[1..]);
    } else {
      var n := WordLength(s);
      SplitWhitespaceConcat(s[n..]);
      NonWhitespaceSplit(s[..n], s[n..]);
      assert s[..n] + s[n..] == s;
      NonWhitespaceOfWord(s[..n]);
      var tokens := SplitWhitespace(s);
      assert tokens[1..] == SplitWhitespace(s[n..]);
    }
  }

  /** A line splits into no token exactly when it is blank. */
  lemma {:induction false} SplitWhitespaceBlank(s: string)
    ensures |SplitWhitespace(s)| == 0 <==> IsBlank(s)
    decreases |s|
  {
    if s != [] && IsWhitespace(s[0]) {
      SplitWhitespaceBlank(s[1..]);
      assert IsBlank(s) <==> IsBlank(s[1..]) by {
        if IsBlank(s[1..]) {
          forall i | 0 <= i < |s| ensures IsWhitespace(s[i]) {
            if i > 0 { assert s[i] == s[1..][i - 1]; }
          }
        }
      }
    }
  }

  /**
    A whitespace character separates tokens: the tokens of `a + [c] + b` are
    those of `a` followed by those of `b`.
  */
  lemma {:induction false} SplitWhitespaceAtSpace(a: string, c: char, b: string)
    requires IsWhitespace(c)
    ensures SplitWhitespace(a + [c] + b) == SplitWhitespace(a) + SplitWhitespace(b)
    decreases |a|
  {
    var s := a + [c] + b;
    if a == [] {
      assert s[1..] == b;
    } else if IsWhitespace(a[0]) {
      assert s[1..] == a[1..] + [c] + b;
      SplitWhitespaceAtSpace(a[1..], c, b);
    } else {
      var n := WordLength(a);
      var rest := a[n..];
      assert s == a + ([c] + b);
      WordLengthStops(a, [c] + b);
      assert s[0] == a[0] && s[..n] == a[..n];
      assert s[n..] == rest + [c] + b;
      SplitWhitespaceAtSpace(rest, c, b);
      assert SplitWhitespace(s) == [a[..n]] + (SplitWhitespace(rest) + SplitWhitespace(b));
      assert SplitWhitespace(a) == [a[..n]] + SplitWhitespace(rest);
    }
  }

  /** A non-empty run of non-whitespace characters is a single token. */
  lemma SplitWhitespaceWord(w: string)
    requires w != [] && forall i | 0 <= i < |w| :: !IsWhitespace(w[i])
    ensures SplitWhitespace(w) == [w]
  {
    assert WordLength(w) == |w|;
    assert w[..|w|] == w;
  }

  /** A word of `a` that ends inside `a`, or where whitespace follows, is not extended by what follows. */
  lemma {:induction false} WordLengthStops(a: string, t: string)
    requires WordLength(a) < |a| || (|t| > 0 && IsWhitespace(t[0]))
    ensures WordLength(a + t) == WordLength(a)
    decreases |a|
  {
    if a == [] {
      assert a + t == t;
    } else if !IsWhitespace(a[0]) {
      assert (a + t)[1..] == a[1..] + t;
      WordLengthStops(a[1..], t);
    }
  }

  lemma {:induction false} NonWhitespaceSplit(a: string, b: string)
    ensures NonWhitespace(a + b) == NonWhitespace(a) + NonWhitespace(b)
    decreases |a|
  {
    if a != [] {
      assert (a + b)[1..] == a[1..] + b;
      NonWhitespaceSplit(a[1..], b);
    } else {
      assert a + b == b;
    }
  }

  lemma {:induction false} NonWhitespaceOfWord(w: string)
    requires forall i | 0 <= i < |w| :: !IsWhitespace(w[i])
    ensures NonWhitespace(w) == w
    decreases |w|
  {
    if w != [] {
      NonWhitespaceOfWord(w[1..]);
    }
  }

  /** One result of `readline`. */
  datatype Input = Line(text: string) | Interrupted | Eof | ReadError

  /** What the debugger prints, in order. */
  datatype Reply =
    | TypeQuitToExit                  // Ctrl-C at the prompt
    | UnrecognizedCommand
    | ChildReport(status: Status)     // "Child <status>"
    | ChildError(error: TraceError)   // a tracing error printed on stderr
    | StartFailed                     // "Error starting subprocess"
    | NoChildRunning
    | FrameLine(frame: Frame)         // one line of a backtrace
    | Killing(pid: nat)               // "Killing running inferior (pid N)"

  /** A non-blank line, split and parsed. */
  datatype Parsed = Recognized(cmd: DebuggerCommand) | Unrecognized | MissingArgument

  /**
    Splitting a non-blank line and parsing its tokens. A `b`, `break` or
    `info` with nothing after it makes `from_tokens` index a missing token.
  */
  function ParseLine(text: string): Parsed
    requires !IsBlank(text)
  {
    SplitWhitespaceBlank(text);
    var tokens := SplitWhitespace(text);
    if TakesArgument(tokens[0]) && |tokens| < 2 then MissingArgument
    else match FromTokens(tokens)
      case Some(c) => Recognized(c)
      case None => Unrecognized
  }

  /** The result of prompting: a command, or a panic (an unexpected read error, a missing argument). */
  datatype Prompted = Command(cmd: DebuggerCommand) | PromptPanicked

  /** A read after which `get_next_command` prompts again. */
  predicate Reprompts(input: Input) {
    match input
    case Interrupted => true
    case Line(text) => IsBlank(text) || ParseLine(text) == Unrecognized
    case _ => false
  }

  /**
    `Debugger::get_next_command` reading from position `pos`: the prompt
    result, the position after the last input it consumed, and what it
    printed. Ctrl-C, blank lines and unrecognised commands prompt again;
    end of file is `quit`; any other read error panics, and so does a
    `b`, `break` or `info` with no argument.
  */
  function NextCommandSpec(script: seq<Input>, pos: nat): (res: (Prompted, nat, seq<Reply>))
    requires pos <= |script|
    ensures pos <= res.1 <= |script|
    ensures res.1 == pos ==> res.0 == Command(Quit)
    decreases |script| - pos
  {
    if pos == |script| then (Command(Quit), pos, [])
    else match script[pos]
      case Interrupted => Prefixed([TypeQuitToExit], NextCommandSpec(script, pos + 1))
      case Eof => (Command(Quit), pos + 1, [])
      case ReadError => (PromptPanicked, pos + 1, [])
      case Line(text) =>
        if IsBlank(text) then NextCommandSpec(script, pos + 1)
        else match ParseLine(text)
          case MissingArgument => (PromptPanicked, pos + 1, [])
          case Recognized(c) => (Command(c), pos + 1, [])
          case Unrecognized => Prefixed([UnrecognizedCommand], NextCommandSpec(script, pos + 1))
  }

  /** A result with `out` printed before its own replies. */
  function Prefixed<P, Q>(out: seq<Reply>, res: (P, Q, seq<Reply>)): (P, Q, seq<Reply>) {
    (res.0, res.1, out + res.2)
  }

  /** Every input `get_next_command` read before the last one was one that re-prompts. */
  lemma {:induction false} NextCommandSkips(script: seq<Input>, pos: nat)
    requires pos <= |script|
    ensures forall j | pos <= j < NextCommandSpec(script, pos).1 - 1 :: Reprompts(script[j])
    decreases |script| - pos
  {
    if pos < |script| && Reprompts(script[pos]) {
      NextCommandSkips(script, pos + 1);
    }
  }

  /**
    The command `get_next_command` returns is `quit` at end of input, and
    otherwise the parse of the last line it read.
  */
  lemma {:induction false} NextCommandFrom(script: seq<Input>, pos: nat)
    requires pos <= |script|
    ensures var (p, next, _) := NextCommandSpec(script, pos);
            p.Command? ==>
              || (p.cmd == Quit && (next == |script| || script[next - 1] == Eof))
              || (next > pos && script[next - 1].Line? && !IsBlank(script[next - 1].text)
                  && ParseLine(script[next - 1].text) == Recognized(p.cmd))
    decreases |script| - pos
  {
    if pos < |script| && Reprompts(script[pos]) {
      NextCommandFrom(script, pos + 1);
    }
  }

  // ---------------------------------------------------------------------------
  // The session state and its specification

  /** What a command does to the prompt loop. */
  datatype Outcome = Running | Quitted | Panicked

  /** A traced child the session holds, with its process id. */
  datatype Child = Child(pid: nat, machine: Machine)

  /** The session's state: the inferior it holds, if any, and the breakpoint table. */
  datatype SessionView = SessionView(child: Option<Child>, table: BreakpointTable)

  /** What `cont_exec`'s result prints. */
  function StatusReply(r: Result<Status>): Reply {
    match r
    case Ok(s) => ChildReport(s)
    case Err(e) => ChildError(e)
  }

  /** What `print_backtrace` prints: one line per frame, then the read error, if any. */
  function BacktraceReplies(bt: Backtrace): seq<Reply>
    decreases |bt.frames|
  {
    if bt.frames == [] then (if bt.end.ReadFailed? then [ChildError(bt.end.error)] else [])
    else [FrameLine(bt.frames[0])] + BacktraceReplies(Backtrace(bt.frames[1..], bt.end))
  }

  /** `to_kill`: the held child, if any, is killed and reaped but stays held. */
  function KillSpec(v: SessionView): (SessionView, seq<Reply>) {
    match v.child
    case None => (v, [])
    case Some(c) => (v.(child := Some(c.(machine := c.machine.(alive := false)))), [Killing(c.pid)])
  }

  /**
    The `run` command: kill the held child, then launch the target with the
    pending breakpoints installed and continue it once. A failed launch
    leaves the killed child held.
  */
  function RunSpec(v: SessionView, target: string, breakset: seq<Word>, args: seq<string>,
                   k: Kernel): (SessionView, Outcome, seq<Reply>)
  {
    var (killed, out) := KillSpec(v);
    var launch := k.spawn(target, args);
    if !TrappedAtStart(launch) then (killed, Running, out + [StartFailed])
    else if !AllReadable(launch.first.mem, breakset) then (killed, Panicked, out)
    else
      var (mem, table) := Install(launch.first.mem, v.table, breakset);
      var (m, r) := ContExecSpec(Machine(mem, launch.first.regs, true), table, k);
      (SessionView(Some(Child(launch.pid, m)), table), Running, out + [StatusReply(r)])
  }

  /** The `cont` command. */
  function ContSpec(v: SessionView, k: Kernel): (SessionView, Outcome, seq<Reply>) {
    match v.child
    case None => (v, Running, [NoChildRunning])
    case Some(c) =>
      var (m, r) := ContExecSpec(c.machine, v.table, k);
      (v.(child := Some(c.(machine := m))), Running, [StatusReply(r)])
  }

  /**
    The `backtrace` command. Reading the registers of a child that has
    ended fails, and `print_backtrace` unwraps that result, so it panics.
  */
  function BackSpec(v: SessionView, resolve: Word -> Frame, fuel: nat): (SessionView, Outcome, seq<Reply>) {
    match v.child
    case None => (v, Running, [NoChildRunning])
    case Some(c) =>
      if !c.machine.alive then (v, Panicked, [])
      else (v, Running, BacktraceReplies(Unwind(c.machine.mem, c.machine.regs.rip, c.machine.regs.rbp, resolve, fuel)))
  }

  /**
    One turn of `Debugger::run`'s loop. `break`, `info` and `disassemble`
    have no arm in the loop and change nothing.
  */
  function DispatchSpec(v: SessionView, cmd: DebuggerCommand, target: string, breakset: seq<Word>,
                        k: Kernel, resolve: Word -> Frame, fuel: nat): (SessionView, Outcome, seq<Reply>)
  {
    match cmd
    case Run(args) => RunSpec(v, target, breakset, args, k)
    case Cont => ContSpec(v, k)
    case Back => BackSpec(v, resolve, fuel)
    case Quit =>
      var (killed, out) := KillSpec(v);
      (killed, Quitted, out)
    case _ => (v, Running, [])
  }

  /** `Debugger::run` from input position `pos` until `quit` or a panic. */
  function SessionSpec(v: SessionView, script: seq<Input>, pos: nat, target: string, breakset: seq<Word>,
                       k: Kernel, resolve: Word -> Frame, fuel: nat): (SessionView, Outcome, seq<Reply>)
    requires pos <= |script|
    decreases |script| - pos
  {
    var (p, next, out) := NextCommandSpec(script, pos);
    match p
    case PromptPanicked => (v, Panicked, out)
    case Command(cmd) =>
      var (v', o, out') := DispatchSpec(v, cmd, target, breakset, k, resolve, fuel);
      if o != Running then (v', o, out + out')
      else Prefixed(out + out', SessionSpec(v', script, next, target, breakset, k, resolve, fuel))
  }

  // ---------------------------------------------------------------------------
  // The debugger

  class Debugger {
    const target: string
    /** The addresses to break at when the target is launched. */
    const breakset: seq<Word>
    var breakpoints: BreakpointTable
    var inferior: Option<Inferior>

    /** The objects the session may change: itself and the inferior it holds. */
    function Held(): set<object>
      reads this
    {
      if inferior.Some? then {this, inferior.value} else {this}
    }

    function View(): SessionView
      reads Held()
    {
      SessionView(
        if inferior.Some? then Some(Child(inferior.value.pid, inferior.value.State())) else None,
        breakpoints)
    }

    /** `Debugger::new`: no inferior yet and no breakpoint recorded. */
    constructor (target: string, breakset: seq<Word>)
      ensures this.target == target && this.breakset == breakset
      ensures View() == SessionView(None, map[])
    {
      this.target := target;
      this.breakset := breakset;
      this.breakpoints := map[];
      this.inferior := None;
    }

    /** `Debugger::get_next_command`, reading the script from `pos`. */
    method GetNextCommand(script: seq<Input>, pos: nat) returns (p: Prompted, next: nat, out: seq<Reply>)
      requires pos <= |script|
      ensures (p, next, out) == NextCommandSpec(script, pos)
    {
      var i := pos;
      out := [];
      assert [] + NextCommandSpec(script, i).2 == NextCommandSpec(script, i).2;
      while i < |script|
        invariant pos <= i <= |script|
        invariant Prefixed(out, NextCommandSpec(script, i)) == NextCommandSpec(script, pos)
        decreases |script| - i
      {
        ghost var rest := NextCommandSpec(script, i + 1).2;
        match script[i] {
          case Interrupted =>
            assert out + ([TypeQuitToExit] + rest) == (out + [TypeQuitToExit]) + rest;
            out := out + [TypeQuitToExit];
          case Eof =>
            assert out + [] == out;
            return Command(Quit), i + 1, out;
          case ReadError =>
            assert out + [] == out;
            return PromptPanicked, i + 1, out;
          case Line(text) =>
            if !IsBlank(text) {
              var parsed := ParseLine(text);
              if parsed.MissingArgument? {
                assert out + [] == out;
                return PromptPanicked, i + 1, out;
              }
              if parsed.Recognized? {
                assert out + [] == out;
                return Command(parsed.cmd), i + 1, out;
              }
              assert out + ([UnrecognizedCommand] + rest) == (out + [UnrecognizedCommand]) + rest;
              out := out + [UnrecognizedCommand];
            }
        }
        i := i + 1;
      }
      assert out + [] == out;
      return Command(Quit), i, out;
    }

    /** `Debugger::to_kill`: kill the held inferior, if any, without letting go of it. */
    method ToKill() returns (out: seq<Reply>)
      modifies Held()
      ensures inferior == old(inferior) && breakpoints == old(breakpoints)
      ensures (View(), out) == KillSpec(old(View()))
    {
      out := [];
      if inferior.Some? {
        var pid := inferior.value.pid;
        inferior.value.Kill();
        out := [Killing(pid)];
      }
    }

    /** The `run` arm of `Debugger::run`. */
    method DoRun(args: seq<string>, k: Kernel) returns (o: Outcome, out: seq<Reply>)
      modifies Held()
      ensures inferior.Some? ==> inferior.value in old(Held()) || fresh(inferior.value)
      ensures old(inferior).Some? ==> !old(inferior).value.alive
      ensures (View(), o, out) == RunSpec(old(View()), target, breakset, args, k)
    {
      out := ToKill();
      var child, table, writeFailed := Inferior.New(target, args, breakset, breakpoints, k);
      if writeFailed {
        return Panicked, out;
      }
      if child.None? {
        return Running, out + [StartFailed];
      }
      breakpoints := table;
      inferior := child;
      var r := child.value.ContExec(breakpoints, k);
      return Running, out + [StatusReply(r)];
    }

    /** The `cont` arm of `Debugger::run`. */
    method DoCont(k: Kernel) returns (out: seq<Reply>)
      modifies Held()
      ensures inferior == old(inferior)
      ensures (View(), Running, out) == ContSpec(old(View()), k)
    {
      if inferior.None? {
        return [NoChildRunning];
      }
      var r := inferior.value.ContExec(breakpoints, k);
      return [StatusReply(r)];
    }

    /** The `backtrace` arm of `Debugger::run`. */
    method DoBack(resolve: Word -> Frame, fuel: nat) returns (o: Outcome, out: seq<Reply>)
      ensures (View(), o, out) == BackSpec(View(), resolve, fuel)
    {
      if inferior.None? {
        return Running, [NoChildRunning];
      }
      if !inferior.value.alive {
        return Panicked, [];
      }
      var bt := inferior.value.PrintBacktrace(resolve, fuel);
      return Running, BacktraceReplies(bt);
    }

    /** One turn of `Debugger::run`'s loop. */
    method Dispatch(cmd: DebuggerCommand, k: Kernel, resolve: Word -> Frame, fuel: nat)
      returns (o: Outcome, out: seq<Reply>)
      modifies Held()
      ensures inferior.Some? ==> inferior.value in old(Held()) || fresh(inferior.value)
      ensures (cmd.Run? || cmd.Quit?) && old(inferior).Some? ==> !old(inferior).value.alive
      ensures (View(), o, out) == DispatchSpec(old(View()), cmd, target, breakset, k, resolve, fuel)
    {
      match cmd
      case Run(args) =>
        o, out := DoRun(args, k);
      case Cont =>
        out := DoCont(k);
        o := Running;
      case Back =>
        o, out := DoBack(resolve, fuel);
      case Quit =>
        out := ToKill();
        o := Quitted;
      case _ =>
        o, out := Running, [];
    }

    /** `Debugger::run`: prompt, dispatch, and repeat until `quit` or a panic. */
    method Run(script: seq<Input>, k: Kernel, resolve: Word -> Frame, fuel: nat)
      returns (o: Outcome, out: seq<Reply>)
      modifies Held()
      ensures (View(), o, out) == SessionSpec(old(View()), script, 0, target, breakset, k, resolve, fuel)
    {
      var pos := 0;
      out := [];
      ghost var whole := SessionSpec(View(), script, 0, target, breakset, k, resolve, fuel);
      assert [] + whole.2 == whole.2;
      while true
        invariant pos <= |script|
        invariant inferior.Some? ==> inferior.value in old(Held()) || fresh(inferior.value)
        invariant Prefixed(out, SessionSpec(View(), script, pos, target, breakset, k, resolve, fuel)) == whole
        decreases |script| - pos
      {
        ghost var rest := SessionSpec(View(), script, pos, target, breakset, k, resolve, fuel);
        var next, turn;
        o, next, turn := Turn(script, pos, k, resolve, fuel);
        if o != Running {
          return o, out + turn;
        }
        ghost var later := SessionSpec(View(), script, next, target, breakset, k, resolve, fuel).2;
        assert out + (turn + later) == (out + turn) + later;
        out, pos := out + turn, next;
      }
    }

    /**
      One pass of `Debugger::run`'s loop: read a command and carry it out.
      While the session goes on, what remains of it starts at `next`, past
      the input just read.
    */
    method Turn(script: seq<Input>, pos: nat, k: Kernel, resolve: Word -> Frame, fuel: nat)
      returns (o: Outcome, next: nat, out: seq<Reply>)
      requires pos <= |script|
      modifies Held()
      ensures inferior.Some? ==> inferior.value in old(Held()) || fresh(inferior.value)
      ensures o != Running ==> (View(), o, out) == SessionSpec(old(View()), script, pos, target, breakset, k, resolve, fuel)
      ensures o == Running ==>
                && pos < next <= |script|
                && Prefixed(out, SessionSpec(View(), script, next, target, breakset, k, resolve, fuel))
                   == SessionSpec(old(View()), script, pos, target, breakset, k, resolve, fuel)
    {
      var p, prompted;
      p, next, prompted := GetNextCommand(script, pos);
      if p.PromptPanicked? {
        return Panicked, next, prompted;
      }
      var replies;
      o, replies := Dispatch(p.cmd, k, resolve, fuel);
      out := prompted + replies;
      if o == Running {
        ghost var later := SessionSpec(View(), script, next, target, breakset, k, resolve, fuel).2;
        assert prompted + replies + later == out + later;
      }
    }
  }
}
