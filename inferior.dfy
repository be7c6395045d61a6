/**
  The process under the deet debugger (deet/src/inferior.rs): spawning it
  with its breakpoints installed, the mapping of wait statuses, the
  step-over-breakpoint protocol of `cont_exec`, byte patching and the
  frame-pointer backtrace.

  The operating system is an oracle. A `Kernel` value says what happens when
  a target is launched and what the tracee does when it is released for one
  instruction (PTRACE_SINGLESTEP) or until its next stop (PTRACE_CONT), as a
  function of its memory and registers at that moment. The symbol resolver
  of the debug information is a function from an address to a frame.
*/
module InferiorProcess {
  import opened Words
  import opened Options

  type Signal = int

  const SIGTRAP: Signal := 5

  /** The x86 `int3` opcode written over the first byte of a breakpointed instruction. */
  const TRAP_OPCODE: Byte := 0xcc

  /** The registers the debugger reads and writes. */
  datatype Regs = Regs(rip: Word, rbp: Word)

  /** A breakpoint and the instruction byte its trap opcode displaced. */
  datatype BreakPoint = BreakPoint(addr: Word, origByte: Byte)

  /** The live breakpoints, keyed by address (`HashMap<usize, BreakPoint>`). */
  type BreakpointTable = map<Addr, BreakPoint>

  /** The debugger's view of a wait result (the `Status` enum). */
  datatype Status = Stopped(sig: Signal, rip: Word) | Exited(code: int) | Signaled(sig: Signal)

  /**
    What `waitpid` reports after the tracee was released; at a stop the
    tracee's memory and registers come with it.
  */
  datatype Event =
    | ExitedWith(code: int)
    | KilledBy(sig: Signal)
    | StoppedBy(sig: Signal, mem: Memory, regs: Regs)

  /** Result of `Command::spawn` followed by the first `waitpid`. */
  datatype Launch = SpawnFailed | Spawned(pid: nat, first: Event)

  /** The operating system and the target program, as seen through ptrace. */
  datatype Kernel = Kernel(
    spawn: (string, seq<string>) -> Launch,
    step: (Memory, Regs) -> Event,
    resume: (Memory, Regs) -> Event)

  /** The state of a traced child: memory, registers, and whether it can still be traced. */
  datatype Machine = Machine(mem: Memory, regs: Regs, alive: bool)

  /** The launch stopped at the initial SIGTRAP that `PTRACE_TRACEME` plus exec produce. */
  predicate TrappedAtStart(l: Launch) {
    l.Spawned? && l.first.StoppedBy? && l.first.sig == SIGTRAP
  }

  // ---------------------------------------------------------------------------
  // Specification functions

  /** The status `Inferior::wait` reports for an event. */
  function StatusOf(e: Event): Status {
    match e
    case ExitedWith(code) => Exited(code)
    case KilledBy(sig) => Signaled(sig)
    case StoppedBy(sig, _, regs) => Stopped(sig, regs.rip)
  }

  /** The child after an event: a stop brings new memory and registers; an exit or kill ends it. */
  function AfterWait(m: Machine, e: Event): Machine {
    if e.StoppedBy? then Machine(e.mem, e.regs, true) else m.(alive := false)
  }

  /** Free run until the next stop, exit or killing signal (`ptrace::cont`, then `wait`). */
  function Resume(m: Machine, k: Kernel): (Machine, Result<Status>) {
    var e := k.resume(m.mem, m.regs);
    (AfterWait(m, e), Ok(StatusOf(e)))
  }

  /**
    The trap address when the child stopped at `rip`: the trap fires after its
    one-byte opcode. The subtraction wraps, as `usize` arithmetic does in a
    release build.
  */
  function TrapAddr(m: Machine): Word {
    m.regs.rip - 1
  }

  /** The child with the original byte put back at the trap address and `rip` rewound onto it. */
  function Restored(m: Machine, table: BreakpointTable): Machine
    requires Addr(TrapAddr(m)) in table
  {
    var trap := TrapAddr(m);
    m.(mem := PokeByte(m.mem, trap, table[Addr(trap)].origByte), regs := m.regs.(rip := trap))
  }

  /**
    Stepping over the breakpoint the child sits just past: the original byte
    goes back, `rip` is rewound onto it and the child runs one instruction.
    If it is still stopped afterwards the trap is re-armed and `None` is
    returned; otherwise its final status is.
  */
  function StepOverSpec(m: Machine, table: BreakpointTable, k: Kernel): (res: (Machine, Option<Status>))
    requires m.alive && Addr(TrapAddr(m)) in table
  {
    var restored := Restored(m, table);
    var e := k.step(restored.mem, restored.regs);
    var stepped := AfterWait(restored, e);
    if e.StoppedBy? then (stepped.(mem := PokeByte(stepped.mem, TrapAddr(m), TRAP_OPCODE)), None)
    else (stepped, Some(StatusOf(e)))
  }

  /** `Inferior::cont_exec`: step over the breakpoint just hit, if any, then run freely. */
  function ContExecSpec(m: Machine, table: BreakpointTable, k: Kernel): (res: (Machine, Result<Status>))
  {
    if !m.alive then (m, Err(NoSuchProcess))
    else if Addr(TrapAddr(m)) in table then
      var (stepped, ended) := StepOverSpec(m, table, k);
      if ended.Some? then (stepped, Ok(ended.value)) else Resume(stepped, k)
    else
      Resume(m, k)
  }

  /** Every address of `addrs` lies in mapped memory. */
  predicate AllReadable(mem: Memory, addrs: seq<Word>) {
    forall a :: a in addrs ==> Readable(mem, a)
  }

  /** The breakpoint-install loop of `Inferior::new`: patch each address in turn and record its byte. */
  function Install(mem: Memory, table: BreakpointTable, addrs: seq<Word>): (res: (Memory, BreakpointTable))
    requires AllReadable(mem, addrs)
    ensures res.0.Keys == mem.Keys
    decreases |addrs|
  {
    if addrs == [] then (mem, table)
    else
      var a := addrs[0];
      var patched := PokeByte(mem, a, TRAP_OPCODE);
      forall b | b in addrs[1..] ensures Readable(patched, b) {
        assert b in addrs;
        assert Readable(mem, b);
        assert SlotOf(b) in mem;
      }
      Install(patched, table[Addr(a) := BreakPoint(a, ByteAt(mem, a))], addrs[1..])
  }

  // ---------------------------------------------------------------------------
  // Stack unwinding

  /** A resolved frame: function name and source line (`DwarfData` lookups). */
  datatype Frame = Frame(name: string, line: nat)

  /** How a backtrace walk ended. */
  datatype WalkEnd = ReachedMain | ReadFailed(error: TraceError) | OutOfFuel

  /** The frames printed, in order, and how the walk ended. */
  datatype Backtrace = Backtrace(frames: seq<Frame>, end: WalkEnd)

  predicate OccursAt(s: string, pat: string, i: nat) {
    i + |pat| <= |s| && s[i..i + |pat|] == pat
  }

  /** Substring test (`str::contains`), scanning the start positions left to right. */
  function Contains(s: string, pat: string): bool
    decreases |s|
  {
    if |s| < |pat| then false
    else if s[..|pat|] == pat then true
    else Contains(s[1..], pat)
  }

  /** `Contains` holds exactly when the pattern occurs at some position. */
  lemma {:induction false} ContainsOccurs(s: string, pat: string)
    ensures Contains(s, pat) <==> exists i: nat :: OccursAt(s, pat, i)
    decreases |s|
  {
    if |s| < |pat| {
      assert forall i: nat :: !OccursAt(s, pat, i);
    } else if s[..|pat|] == pat {
      assert OccursAt(s, pat, 0);
    } else {
      ContainsOccurs(s[1..], pat);
      forall i: nat ensures OccursAt(s[1..], pat, i) <==> OccursAt(s, pat, i + 1) {
        if i + |pat| <= |s[1..]| {
          assert s[1..][i..i + |pat|] == s[i + 1..i + 1 + |pat|];
        }
      }
      assert !OccursAt(s, pat, 0);
      if exists i: nat :: OccursAt(s, pat, i) {
        var i: nat :| OccursAt(s, pat, i);
        assert i > 0 && OccursAt(s[1..], pat, i - 1);
      }
    }
  }

  /** The frame the walk stops at: a function whose name contains "main". */
  predicate IsEntry(f: Frame) {
    Contains(f.name, "main")
  }

  /**
    `Inferior::print_backtrace` for at most `fuel` frames: emit the frame at
    `rip`; stop after the entry function; otherwise continue with the return
    address at `[rbp+8]` and the caller's frame pointer at `[rbp]`.
  */
  function Unwind(mem: Memory, rip: Word, rbp: Word, resolve: Word -> Frame, fuel: nat): Backtrace
    decreases fuel
  {
    if fuel == 0 then Backtrace([], OutOfFuel)
    else
      var f := resolve(rip);
      if IsEntry(f) then Backtrace([f], ReachedMain)
      else match CallerOf(mem, rbp)
        case Err(e) => Backtrace([f], ReadFailed(e))
        case Ok(caller) =>
          var rest := Unwind(mem, caller.rip, caller.rbp, resolve, fuel - 1);
          Backtrace([f] + rest.frames, rest.end)
  }

  /**
    The caller's frame from a frame pointer: the return address saved at
    `[rbp+8]` and the caller's frame pointer saved at `[rbp]`, read in that
    order; the first failed read ends the walk.
  */
  function CallerOf(mem: Memory, rbp: Word): Result<Regs> {
    match ReadWord(mem, rbp + 8)
    case Err(e) => Err(e)
    case Ok(ret) =>
      match ReadWord(mem, rbp)
      case Err(e) => Err(e)
      case Ok(callerRbp) => Ok(Regs(ret, callerRbp))
  }

  /** A backtrace with `frames` printed before it. */
  function Extend(frames: seq<Frame>, bt: Backtrace): Backtrace {
    Backtrace(frames + bt.frames, bt.end)
  }

  /**
    A frame-pointer chain of exactly `n` frames from (`rip`, `rbp`) whose last
    frame, and only that one, is the entry function.
  */
  ghost predicate ChainToMain(mem: Memory, rip: Word, rbp: Word, resolve: Word -> Frame, n: nat)
    decreases n
  {
    if n == 0 then false
    else if IsEntry(resolve(rip)) then n == 1
    else
      n > 1 && CallerOf(mem, rbp).Ok? &&
      ChainToMain(mem, CallerOf(mem, rbp).value.rip, CallerOf(mem, rbp).value.rbp, resolve, n - 1)
  }

  // ---------------------------------------------------------------------------
  // The inferior process

  class Inferior {
    const pid: nat
    var mem: Memory
    var regs: Regs
    /** False once the child has exited, died of a signal, or been killed and reaped. */
    var alive: bool

    function State(): Machine
      reads this
    {
      Machine(mem, regs, alive)
    }

    constructor (pid: nat, mem: Memory, regs: Regs)
      ensures this.pid == pid && State() == Machine(mem, regs, true)
    {
      this.pid := pid;
      this.mem := mem;
      this.regs := regs;
      this.alive := true;
    }

    /**
      Attempts to start the target under tracing. Only when the first stop is
      SIGTRAP is every address of `breakset` patched with the trap opcode and
      recorded in the table with the byte it displaced. A breakpoint write
      that fails aborts the debugger (the `expect` on `write_byte`), reported
      as `writeFailed`.
    */
    static method New(target: string, args: seq<string>, breakset: seq<Word>,
                      table: BreakpointTable, k: Kernel)
      returns (inferior: Option<Inferior>, table': BreakpointTable, writeFailed: bool)
      ensures !TrappedAtStart(k.spawn(target, args)) ==> inferior == None && table' == table && !writeFailed
      ensures TrappedAtStart(k.spawn(target, args)) ==>
                (writeFailed <==> !AllReadable(k.spawn(target, args).first.mem, breakset))
      ensures writeFailed ==> inferior == None
      ensures TrappedAtStart(k.spawn(target, args)) && !writeFailed ==>
                var launch := k.spawn(target, args);
                && inferior.Some? && fresh(inferior.value)
                && inferior.value.pid == launch.pid
                && inferior.value.alive && inferior.value.regs == launch.first.regs
                && (inferior.value.mem, table') == Install(launch.first.mem, table, breakset)
    {
      var launch := k.spawn(target, args);
      if !launch.Spawned? {
        return None, table, false;
      }
      if !(launch.first.StoppedBy? && launch.first.sig == SIGTRAP) {
        return None, table, false;
      }
      var child := new Inferior(launch.pid, launch.first.mem, launch.first.regs);
      table', writeFailed := child.InstallBreakpoints(breakset, table);
      if writeFailed {
        return None, table', true;
      }
      return Some(child), table', false;
    }

    /**
      The loop of `Inferior::new`: write the trap opcode at each address in
      turn and record the byte it displaced, stopping at the first write that
      fails.
    */
    method InstallBreakpoints(breakset: seq<Word>, table: BreakpointTable)
      returns (table': BreakpointTable, writeFailed: bool)
      requires alive
      modifies this`mem
      ensures writeFailed <==> !AllReadable(old(mem), breakset)
      ensures !writeFailed ==> (mem, table') == Install(old(mem), table, breakset)
    {
      table' := table;
      for i := 0 to |breakset|
        invariant mem.Keys == old(mem).Keys
        invariant forall a :: Readable(mem, a) == Readable(old(mem), a)
        invariant AllReadable(old(mem), breakset[..i])
        invariant AllReadable(old(mem), breakset) ==> AllReadable(mem, breakset[i..])
        invariant AllReadable(old(mem), breakset) ==>
                    Install(mem, table', breakset[i..]) == Install(old(mem), table, breakset)
      {
        var retByte := WriteByte(breakset[i], TRAP_OPCODE);
        if retByte.Err? {
          assert breakset[i] in breakset && !Readable(old(mem), breakset[i]);
          return table', true;
        }
        assert breakset[i..][1..] == breakset[i + 1..];
        assert breakset[..i + 1] == breakset[..i] + [breakset[i]];
        table' := table'[Addr(breakset[i]) := BreakPoint(breakset[i], retByte.value)];
      }
      assert breakset[|breakset|..] == [] && breakset[..|breakset|] == breakset;
      return table', false;
    }

    /** `ptrace::read` of one word. */
    method Peek(addr: Word) returns (r: Result<Word>)
      ensures !alive ==> r == Err(NoSuchProcess)
      ensures alive ==> r == ReadWord(mem, addr)
    {
      if !alive {
        return Err(NoSuchProcess);
      }
      return ReadWord(mem, addr);
    }

    /** `ptrace::write` of one word at a word-aligned mapped address. */
    method Poke(addr: Word, word: Word) returns (r: Result<()>)
      modifies this`mem
      ensures !alive || ReadWord(old(mem), addr).Err? ==> r.Err? && mem == old(mem)
      ensures alive && ReadWord(old(mem), addr).Ok? ==> r.Ok? && mem == old(mem)[Addr(addr) := word]
    {
      if !alive {
        return Err(NoSuchProcess);
      }
      if ReadWord(mem, addr).Err? {
        return Err(BadAddress);
      }
      mem := mem[Addr(addr) := word];
      return Ok(());
    }

    /**
      Read-modify-write of the word holding `addr`: returns the byte that was
      there and leaves `val` in its place; nothing else in memory changes.
    */
    method WriteByte(addr: Word, val: Byte) returns (r: Result<Byte>)
      modifies this`mem
      ensures !alive ==> r == Err(NoSuchProcess) && mem == old(mem)
      ensures alive && !Readable(old(mem), addr) ==> r == Err(BadAddress) && mem == old(mem)
      ensures alive && Readable(old(mem), addr) ==> r == Ok(ByteAt(old(mem), addr))
      ensures alive ==> mem == PokeByte(old(mem), addr, val)
    {
      ReadHoldingWord(mem, addr);
      var alignedAddr := AlignAddrToWord(addr);
      var byteOffset := ByteOffset(addr);
      var read := Peek(alignedAddr);
      if read.Err? {
        return Err(read.error);
      }
      var word := read.value;
      var origByte := Lane(word, byteOffset);
      var updatedWord := PatchWord(word, byteOffset, val);
      // The word was just read, so writing it back succeeds.
      var _ := Poke(alignedAddr, updatedWord);
      return Ok(origByte);
    }

    /** `Inferior::wait`: maps the event onto a `Status` and takes in the new state. */
    method Wait(e: Event) returns (s: Status)
      modifies this
      ensures e.ExitedWith? ==> s == Exited(e.code)
      ensures e.KilledBy? ==> s == Signaled(e.sig)
      ensures e.StoppedBy? ==> s == Stopped(e.sig, e.regs.rip)
      ensures State() == AfterWait(old(State()), e)
    {
      match e
      case ExitedWith(code) =>
        alive := false;
        s := Exited(code);
      case KilledBy(sig) =>
        alive := false;
        s := Signaled(sig);
      case StoppedBy(sig, newMem, newRegs) =>
        mem, regs, alive := newMem, newRegs, true;
        s := Stopped(sig, regs.rip);
    }

    /**
      The breakpoint half of `Inferior::cont_exec`: put the original byte
      back, rewind `rip` onto it, single-step, and re-arm the trap unless the
      step ended the child, in which case its final status is returned.
    */
    method StepOverBreakpoint(table: BreakpointTable, k: Kernel) returns (ended: Option<Status>)
      requires alive && Addr(regs.rip - 1) in table
      modifies this
      ensures (State(), ended) == StepOverSpec(old(State()), table, k)
    {
      var trap := regs.rip - 1;
      RestoreOriginal(table);
      var stepped := Wait(k.step(mem, regs));
      if !stepped.Stopped? {
        return Some(stepped);
      }
      var _ := WriteByte(trap, TRAP_OPCODE);
      return None;
    }

    /** Writes the saved byte back over the trap just hit and rewinds `rip` onto it (`setregs`). */
    method RestoreOriginal(table: BreakpointTable)
      requires alive && Addr(regs.rip - 1) in table
      modifies this
      ensures State() == Restored(old(State()), table)
    {
      var trap := regs.rip - 1;
      var _ := WriteByte(trap, table[Addr(trap)].origByte);
      regs := regs.(rip := trap);
    }

    /**
      `Inferior::cont_exec`: reading the registers fails once the child is
      gone; otherwise the child continues from its stop.
    */
    method ContExec(table: BreakpointTable, k: Kernel) returns (r: Result<Status>)
      modifies this
      ensures (State(), r) == ContExecSpec(old(State()), table, k)
    {
      if !alive {
        return Err(NoSuchProcess);
      }
      r := ContinueFromStop(table, k);
    }

    /**
      The rest of `Inferior::cont_exec`: step over the breakpoint the child
      sits just past, if any, then continue to the next stop.
    */
    method ContinueFromStop(table: BreakpointTable, k: Kernel) returns (r: Result<Status>)
      requires alive
      modifies this
      ensures (State(), r) == ContExecSpec(old(State()), table, k)
    {
      if Addr(regs.rip - 1) in table {
        var ended := StepOverBreakpoint(table, k);
        if ended.Some? {
          return Ok(ended.value);
        }
      }
      r := Continue(k);
    }

    /** `ptrace::cont` followed by `Inferior::wait`: run freely until the next stop, exit or kill. */
    method Continue(k: Kernel) returns (r: Result<Status>)
      requires alive
      modifies this
      ensures (State(), r) == Resume(old(State()), k)
    {
      var status := Wait(k.resume(mem, regs));
      return Ok(status);
    }

    /** `Inferior::kill_inferior`: kill the child and reap it. */
    method Kill()
      modifies this`alive
      ensures !alive
    {
      alive := false;
    }

    /** The two `ptrace::read`s of one backtrace step. */
    method ReadCaller(rbp: Word) returns (r: Result<Regs>)
      requires alive
      ensures r == CallerOf(mem, rbp)
    {
      var ret := Peek(rbp + 8);
      if ret.Err? {
        return Err(ret.error);
      }
      var callerRbp := Peek(rbp);
      if callerRbp.Err? {
        return Err(callerRbp.error);
      }
      return Ok(Regs(ret.value, callerRbp.value));
    }

    /** `Inferior::print_backtrace`, emitting at most `fuel` frames. */
    method PrintBacktrace(resolve: Word -> Frame, fuel: nat) returns (bt: Backtrace)
      requires alive
      ensures bt == Unwind(mem, regs.rip, regs.rbp, resolve, fuel)
    {
      var ripValue, rbpValue := regs.rip, regs.rbp;
      var frames: seq<Frame> := [];
      var remaining := fuel;
      while remaining > 0
        invariant Unwind(mem, regs.rip, regs.rbp, resolve, fuel)
                  == Extend(frames, Unwind(mem, ripValue, rbpValue, resolve, remaining))
      {
        ghost var before := frames;
        var frame := resolve(ripValue);
        frames := frames + [frame];
        if IsEntry(frame) {
          return Backtrace(frames, ReachedMain);
        }
        var caller := ReadCaller(rbpValue);
        if caller.Err? {
          return Backtrace(frames, ReadFailed(caller.error));
        }
        ghost var next := Unwind(mem, caller.value.rip, caller.value.rbp, resolve, remaining - 1);
        assert before + ([frame] + next.frames) == frames + next.frames;
        ripValue, rbpValue, remaining := caller.value.rip, caller.value.rbp, remaining - 1;
      }
      assert frames + [] == frames;
      return Backtrace(frames, OutOfFuel);
    }
  }
}
