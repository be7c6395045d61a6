/**
  Properties of the inferior's specification functions: the order of the
  step-over-breakpoint protocol, breakpoint installation at spawn, and the
  frame-pointer walk.
*/
module InferiorProperties {
  import opened Words
  import opened InferiorProcess

  // ---------------------------------------------------------------------------
  // Wait status and cont_exec outcome

  /** A waited-for child is still traceable exactly when it stopped, and then the status carries its `rip`. */
  lemma AfterWaitStatus(m: Machine, e: Event)
    ensures AfterWait(m, e).alive <==> StatusOf(e).Stopped?
    ensures StatusOf(e).Stopped? ==> StatusOf(e).rip == AfterWait(m, e).regs.rip
    ensures !StatusOf(e).Stopped? ==> AfterWait(m, e).mem == m.mem && AfterWait(m, e).regs == m.regs
  {
  }

  /**
    `cont_exec` fails exactly on a child that is gone, and then changes
    nothing; otherwise the child is still traceable afterwards exactly when
    the status is a stop, whose `rip` is the child's.
  */
  lemma ContExecOutcome(m: Machine, table: BreakpointTable, k: Kernel)
    ensures var (m', r) := ContExecSpec(m, table, k);
            && (r.Ok? <==> m.alive)
            && (!m.alive ==> m' == m && r == Err(NoSuchProcess))
            && (m'.alive <==> r.Ok? && r.value.Stopped?)
            && (m'.alive ==> r.value.rip == m'.regs.rip)
  {
    if m.alive && Addr(TrapAddr(m)) in table {
      var restored := Restored(m, table);
      AfterWaitStatus(restored, k.step(restored.mem, restored.regs));
    }
  }

  /** Off a breakpoint, `cont_exec` continues the child with memory and registers untouched. */
  lemma ContExecOffBreakpoint(m: Machine, table: BreakpointTable, k: Kernel)
    requires m.alive && Addr(TrapAddr(m)) !in table
    ensures ContExecSpec(m, table, k) == Resume(m, k)
  {
  }

  // ---------------------------------------------------------------------------
  // Step over a breakpoint

  /**
    What the single step sees: the saved byte back at the trap address,
    `rip` on that address, and every other byte as it was.
  */
  lemma {:induction false} RestoredView(m: Machine, table: BreakpointTable, b: Word)
    requires Addr(TrapAddr(m)) in table && Readable(m.mem, TrapAddr(m)) && Readable(m.mem, b)
    ensures var r := Restored(m, table);
            && r.regs == m.regs.(rip := TrapAddr(m)) && r.alive == m.alive
            && Readable(r.mem, b)
            && ByteAt(r.mem, b) == if b == TrapAddr(m) then table[Addr(TrapAddr(m))].origByte else ByteAt(m.mem, b)
  {
    PokeByteAt(m.mem, TrapAddr(m), table[Addr(TrapAddr(m))].origByte, b);
  }

  /**
    When the single step ends the child, `cont_exec` returns that status at
    once and the saved byte stays in place: the trap is not re-armed.
  */
  lemma {:induction false} StepEndedLeavesOriginal(m: Machine, table: BreakpointTable, k: Kernel)
    requires m.alive && Addr(TrapAddr(m)) in table && Readable(m.mem, TrapAddr(m))
    requires var r := Restored(m, table); !k.step(r.mem, r.regs).StoppedBy?
    ensures var r := Restored(m, table);
            var e := k.step(r.mem, r.regs);
            var (m', status) := ContExecSpec(m, table, k);
            && status == Ok(StatusOf(e)) && !m'.alive
            && Readable(m'.mem, TrapAddr(m))
            && ByteAt(m'.mem, TrapAddr(m)) == table[Addr(TrapAddr(m))].origByte
  {
    RestoredView(m, table, TrapAddr(m));
  }

  /**
    When the single step stops, the trap opcode is written back at the trap
    address; every other byte is what the step left.
  */
  lemma {:induction false} StepStoppedRearms(m: Machine, table: BreakpointTable, k: Kernel, b: Word)
    requires m.alive && Addr(TrapAddr(m)) in table
    requires var r := Restored(m, table); var e := k.step(r.mem, r.regs);
             e.StoppedBy? && Readable(e.mem, TrapAddr(m)) && Readable(e.mem, b)
    ensures var r := Restored(m, table);
            var e := k.step(r.mem, r.regs);
            var (m', ended) := StepOverSpec(m, table, k);
            && ended.None? && m'.alive && m'.regs == e.regs
            && Readable(m'.mem, b)
            && ByteAt(m'.mem, b) == if b == TrapAddr(m) then TRAP_OPCODE else ByteAt(e.mem, b)
  {
    var r := Restored(m, table);
    var e := k.step(r.mem, r.regs);
    PokeByteAt(e.mem, TrapAddr(m), TRAP_OPCODE, b);
  }

  /**
    Stepping over an armed breakpoint with an instruction that writes no
    memory leaves memory exactly as it was before `cont_exec`.
  */
  lemma {:induction false} StepOverRestoresMemory(m: Machine, table: BreakpointTable, k: Kernel)
    requires m.alive && Addr(TrapAddr(m)) in table
    requires Readable(m.mem, TrapAddr(m)) && ByteAt(m.mem, TrapAddr(m)) == TRAP_OPCODE
    requires var r := Restored(m, table); var e := k.step(r.mem, r.regs);
             e.StoppedBy? && e.mem == r.mem
    ensures StepOverSpec(m, table, k).0.mem == m.mem
  {
    PokeByteRoundTrip(m.mem, TrapAddr(m), table[Addr(TrapAddr(m))].origByte);
  }

  /** Every breakpoint in the table holds the trap opcode. */
  predicate Armed(mem: Memory, table: BreakpointTable) {
    forall key :: key in table ==> Readable(mem, key.value) && ByteAt(mem, key.value) == TRAP_OPCODE
  }

  /**
    If every breakpoint is armed and the single step leaves the bytes at the
    breakpoint addresses as it found them, every breakpoint is armed again
    when the child is continued.
  */
  lemma {:induction false} StepOverKeepsArmed(m: Machine, table: BreakpointTable, k: Kernel)
    requires m.alive && Addr(TrapAddr(m)) in table && Armed(m.mem, table)
    requires var r := Restored(m, table); var e := k.step(r.mem, r.regs);
             && e.StoppedBy?
             && forall key :: key in table ==>
                  Readable(r.mem, key.value) && Readable(e.mem, key.value)
                  && ByteAt(e.mem, key.value) == ByteAt(r.mem, key.value)
    ensures Armed(StepOverSpec(m, table, k).0.mem, table)
  {
    var trap := TrapAddr(m);
    var r := Restored(m, table);
    var e := k.step(r.mem, r.regs);
    var m' := StepOverSpec(m, table, k).0;
    forall key | key in table
      ensures Readable(m'.mem, key.value) && ByteAt(m'.mem, key.value) == TRAP_OPCODE
    {
      StepStoppedRearms(m, table, k, key.value);
      if key.value != trap {
        RestoredView(m, table, key.value);
      }
    }
  }

  /**
    A tracee event leaves the byte at every recorded breakpoint address as
    it found it: the program does not overwrite its own code there.
  */
  predicate KeepsBreakpointBytes(before: Memory, e: Event, table: BreakpointTable) {
    e.StoppedBy? ==>
      forall key :: key in table && Readable(before, key.value) ==>
        Readable(e.mem, key.value) && ByteAt(e.mem, key.value) == ByteAt(before, key.value)
  }

  /** A free run that keeps the breakpoint bytes leaves an armed child armed, if it is still alive. */
  lemma ResumeKeepsArmed(m: Machine, table: BreakpointTable, k: Kernel)
    requires Armed(m.mem, table)
    requires KeepsBreakpointBytes(m.mem, k.resume(m.mem, m.regs), table)
    ensures Resume(m, k).0.alive ==> Armed(Resume(m, k).0.mem, table)
  {
  }

  /**
    The whole of `cont_exec` keeps every breakpoint armed, so each one traps
    again on later passes, as long as neither the single step nor the free
    run overwrites the bytes at breakpoint addresses.
  */
  lemma ContExecKeepsArmed(m: Machine, table: BreakpointTable, k: Kernel)
    requires m.alive && Armed(m.mem, table)
    requires forall mem, regs :: KeepsBreakpointBytes(mem, k.step(mem, regs), table)
    requires forall mem, regs :: KeepsBreakpointBytes(mem, k.resume(mem, regs), table)
    ensures ContExecSpec(m, table, k).0.alive ==> Armed(ContExecSpec(m, table, k).0.mem, table)
  {
    if Addr(TrapAddr(m)) in table {
      var r := Restored(m, table);
      var e := k.step(r.mem, r.regs);
      assert KeepsBreakpointBytes(r.mem, e, table);
      if e.StoppedBy? {
        forall key | key in table
          ensures Readable(r.mem, key.value) && Readable(e.mem, key.value)
                  && ByteAt(e.mem, key.value) == ByteAt(r.mem, key.value)
        {
          RestoredView(m, table, key.value);
        }
        StepOverKeepsArmed(m, table, k);
        var stepped := StepOverSpec(m, table, k).0;
        assert KeepsBreakpointBytes(stepped.mem, k.resume(stepped.mem, stepped.regs), table);
        ResumeKeepsArmed(stepped, table, k);
      }
    } else {
      assert KeepsBreakpointBytes(m.mem, k.resume(m.mem, m.regs), table);
      ResumeKeepsArmed(m, table, k);
    }
  }

  // ---------------------------------------------------------------------------
  // Breakpoint installation

  /** One step of the install loop: the first address is patched and recorded, then the rest. */
  lemma InstallFirst(mem: Memory, table: BreakpointTable, a: Word, rest: seq<Word>)
    requires Readable(mem, a) && forall b :: b in rest ==> Readable(mem, b)
    ensures forall b :: b in rest ==> Readable(PokeByte(mem, a, TRAP_OPCODE), b)
    ensures Install(mem, table, [a] + rest)
            == Install(PokeByte(mem, a, TRAP_OPCODE), table[Addr(a) := BreakPoint(a, ByteAt(mem, a))], rest)
  {
    assert ([a] + rest)[1..] == rest;
  }

  /**
    After installation every listed address holds the trap opcode and every
    other byte is unchanged (whether or not the list repeats an address).
  */
  lemma {:induction false} InstallPatchesMemory(mem: Memory, table: BreakpointTable, addrs: seq<Word>, b: Word)
    requires AllReadable(mem, addrs)
    requires Readable(mem, b)
    ensures var mem' := Install(mem, table, addrs).0;
            && Readable(mem', b)
            && ByteAt(mem', b) == if b in addrs then TRAP_OPCODE else ByteAt(mem, b)
    decreases |addrs|
  {
    if addrs != [] {
      var a := addrs[0];
      var patched := PokeByte(mem, a, TRAP_OPCODE);
      var tail := addrs[1..];
      var table1 := table[Addr(a) := BreakPoint(a, ByteAt(mem, a))];
      assert addrs == [a] + tail;
      InstallFirst(mem, table, a, tail);
      PokeByteAt(mem, a, TRAP_OPCODE, b);
      InstallPatchesMemory(patched, table1, tail, b);
      assert b in addrs <==> b == a || b in tail;
    }
  }

  /** No address is listed twice. */
  predicate NoDuplicates(addrs: seq<Word>) {
    addrs == [] || (addrs[0] !in addrs[1..] && NoDuplicates(addrs[1..]))
  }

  /**
    Installing distinct addresses records each with the byte it held before
    installation; the table gains exactly the listed addresses as keys, and
    every other entry is unchanged.
  */
  lemma {:induction false} InstallRecordsOriginals(mem: Memory, table: BreakpointTable, addrs: seq<Word>, key: Addr)
    requires AllReadable(mem, addrs)
    requires NoDuplicates(addrs)
    ensures var table' := Install(mem, table, addrs).1;
            && (key in table' <==> key in table || key.value in addrs)
            && (key.value in addrs ==> table'[key] == BreakPoint(key.value, ByteAt(mem, key.value)))
            && (key in table && key.value !in addrs ==> table'[key] == table[key])
    decreases |addrs|
  {
    if addrs != [] {
      var a := addrs[0];
      var patched := PokeByte(mem, a, TRAP_OPCODE);
      var table1 := table[Addr(a) := BreakPoint(a, ByteAt(mem, a))];
      var tail := addrs[1..];
      assert addrs == [a] + tail;
      InstallFirst(mem, table, a, tail);
      InstallRecordsOriginals(patched, table1, tail, key);
      assert key.value in addrs <==> key.value == a || key.value in tail;
      if key.value in tail {
        PokeByteAt(mem, a, TRAP_OPCODE, key.value);
      }
    }
  }

  /**
    An address listed twice is patched twice, so the second record saves the
    trap opcode written by the first rather than the original byte.
  */
  lemma {:induction false} InstallTwiceSavesTrap(mem: Memory, table: BreakpointTable, a: Word)
    requires Readable(mem, a)
    ensures var table' := Install(mem, table, [a, a]).1;
            Addr(a) in table' && table'[Addr(a)] == BreakPoint(a, TRAP_OPCODE)
  {
    var patched := PokeByte(mem, a, TRAP_OPCODE);
    var t1 := table[Addr(a) := BreakPoint(a, ByteAt(mem, a))];
    InstallFirst(mem, table, a, [a]);
    assert [a] + [a] == [a, a];
    InstallFirst(patched, t1, a, []);
    assert [a] + [] == [a];
    PokeByteAt(mem, a, TRAP_OPCODE, a);
  }

  /** The table's keys after installation are the old keys and the listed addresses, duplicates or not. */
  lemma {:induction false} InstallKeys(mem: Memory, table: BreakpointTable, addrs: seq<Word>, key: Addr)
    requires AllReadable(mem, addrs)
    ensures key in Install(mem, table, addrs).1 <==> key in table || key.value in addrs
    decreases |addrs|
  {
    if addrs != [] {
      var a := addrs[0];
      var patched := PokeByte(mem, a, TRAP_OPCODE);
      var table1 := table[Addr(a) := BreakPoint(a, ByteAt(mem, a))];
      var tail := addrs[1..];
      assert addrs == [a] + tail;
      InstallFirst(mem, table, a, tail);
      InstallKeys(patched, table1, tail, key);
    }
  }

  /**
    Installation arms every breakpoint: when the table only holds addresses
    that are being installed, each of its entries holds the trap opcode
    afterwards.
  */
  lemma InstallArms(mem: Memory, table: BreakpointTable, addrs: seq<Word>)
    requires AllReadable(mem, addrs)
    requires forall key :: key in table ==> key.value in addrs
    ensures Armed(Install(mem, table, addrs).0, Install(mem, table, addrs).1)
  {
    var (mem', table') := Install(mem, table, addrs);
    forall key | key in table'
      ensures Readable(mem', key.value) && ByteAt(mem', key.value) == TRAP_OPCODE
    {
      InstallKeys(mem, table, addrs, key);
      InstallPatchesMemory(mem, table, addrs, key.value);
    }
  }

  // ---------------------------------------------------------------------------
  // Frame-pointer walk

  /**
    The caller's frame can be read exactly when the frame pointer is
    word-aligned and both `[rbp+8]` and `[rbp]` are mapped; it is then the
    saved return address and the saved frame pointer. A failed read is EIO,
    and an unreadable `[rbp+8]` fails the walk whatever `[rbp]` holds.
  */
  lemma CallerOfReads(mem: Memory, rbp: Word)
    ensures CallerOf(mem, rbp).Ok? <==> rbp % 8 == 0 && Addr(rbp + 8) in mem && Addr(rbp) in mem
    ensures CallerOf(mem, rbp).Ok? ==> CallerOf(mem, rbp).value == Regs(mem[Addr(rbp + 8)], mem[Addr(rbp)])
    ensures rbp % 8 != 0 || Addr(rbp + 8) !in mem ==> CallerOf(mem, rbp) == Err(BadAddress)
    ensures Addr(rbp + 8) in mem && rbp % 8 == 0 && Addr(rbp) !in mem ==> CallerOf(mem, rbp) == Err(BadAddress)
  {
    AlignedExactly(rbp);
    AlignedExactly(rbp + 8);
  }

  /** An address is its own word boundary exactly when it is a multiple of 8, and a word further on keeps that. */
  lemma AlignedExactly(x: Word)
    ensures AlignAddrToWord(x) == x <==> x % 8 == 0
    ensures (x + 8) % 8 == x % 8
  {
  }

  /**
    The walk emits at most `fuel` frames, the first of them the frame at
    `rip`; it runs out of fuel only after emitting `fuel` frames; and a frame
    is the entry function exactly when it is the last one and the walk
    reached it.
  */
  lemma {:induction false} UnwindShape(mem: Memory, rip: Word, rbp: Word, resolve: Word -> Frame, fuel: nat)
    ensures var bt := Unwind(mem, rip, rbp, resolve, fuel);
            && |bt.frames| <= fuel
            && (fuel > 0 ==> |bt.frames| > 0 && bt.frames[0] == resolve(rip))
            && (bt.end.OutOfFuel? ==> |bt.frames| == fuel)
            && (bt.end.ReachedMain? ==> |bt.frames| > 0)
            && (forall i :: 0 <= i < |bt.frames| ==>
                  (IsEntry(bt.frames[i]) <==> bt.end.ReachedMain? && i == |bt.frames| - 1))
    decreases fuel
  {
    if fuel > 0 && !IsEntry(resolve(rip)) && CallerOf(mem, rbp).Ok? {
      var caller := CallerOf(mem, rbp).value;
      UnwindShape(mem, caller.rip, caller.rbp, resolve, fuel - 1);
      var rest := Unwind(mem, caller.rip, caller.rbp, resolve, fuel - 1);
      var bt := Unwind(mem, rip, rbp, resolve, fuel);
      assert bt.frames == [resolve(rip)] + rest.frames;
      forall i | 0 <= i < |bt.frames|
        ensures IsEntry(bt.frames[i]) <==> bt.end.ReachedMain? && i == |bt.frames| - 1
      {
        if i > 0 {
          assert bt.frames[i] == rest.frames[i - 1];
        }
      }
    }
  }

  /** A chain of `n` frames ending at the entry function is walked to the end with enough fuel. */
  lemma {:induction false} UnwindReachesMain(mem: Memory, rip: Word, rbp: Word, resolve: Word -> Frame, n: nat, fuel: nat)
    requires ChainToMain(mem, rip, rbp, resolve, n) && n <= fuel
    ensures Unwind(mem, rip, rbp, resolve, fuel).end == ReachedMain
    ensures |Unwind(mem, rip, rbp, resolve, fuel).frames| == n
    decreases n
  {
    if !IsEntry(resolve(rip)) {
      var caller := CallerOf(mem, rbp).value;
      UnwindReachesMain(mem, caller.rip, caller.rbp, resolve, n - 1, fuel - 1);
    }
  }

  /** Conversely, a walk that reaches the entry function followed a chain of that many frames. */
  lemma {:induction false} UnwindReachedMainIsChain(mem: Memory, rip: Word, rbp: Word, resolve: Word -> Frame, fuel: nat)
    requires Unwind(mem, rip, rbp, resolve, fuel).end == ReachedMain
    ensures ChainToMain(mem, rip, rbp, resolve, |Unwind(mem, rip, rbp, resolve, fuel).frames|)
    decreases fuel
  {
    if !IsEntry(resolve(rip)) {
      var caller := CallerOf(mem, rbp).value;
      UnwindReachedMainIsChain(mem, caller.rip, caller.rbp, resolve, fuel - 1);
      UnwindShape(mem, caller.rip, caller.rbp, resolve, fuel - 1);
    }
  }
}
