# deet breakpoint engine and rust-wc word count, in Dafny

This project models two small Rust tools and proves properties of the models.

**deet** is a ptrace debugger for x86-64 Linux.

- `words.dfy` (module `Words`) holds tracee memory at word granularity:
  - `align_addr_to_word`;
  - the byte lanes of a 64-bit word;
  - the read-modify-write that `write_byte` performs to patch one byte.
- `inferior.dfy` (module `InferiorProcess`) is the traced child, as the class `Inferior`:
  - spawning with breakpoint installation;
  - the wait-status mapping;
  - `cont_exec`'s step-over-breakpoint protocol;
  - `kill_inferior`;
  - the frame-pointer backtrace.

  Each method is proved against a pure specification function on a `Machine` value (memory, registers, liveness):
  - `ContExecSpec` and `StepOverSpec`;
  - `Install`;
  - `Unwind`.

  The operating system is a `Kernel` value. It says what a launch yields and what the tracee does when released for one instruction or until its next stop. The debug-information resolver is a total function from an address to a frame.
- `inferior_properties.dfy` proves the ordering properties of the step-over protocol:
  - the original byte is back while the child steps;
  - a child that ended during the step keeps it;
  - a child still stopped gets the trap re-armed;
  - breakpoints stay armed across a whole `cont_exec`, as long as the program does not overwrite the bytes at breakpoint addresses.

  It also proves what installation records, that it arms every recorded breakpoint, and how the backtrace walk ends.
- `debugger_command.dfy` (module `DebuggerCommands`) is the command parser `from_tokens`.
- `debugger.dfy` (module `Session`) is the session controller `Debugger`:
  - the prompt loop `get_next_command`, with Unicode `split_whitespace` and the blank-line, Ctrl-C and end-of-file rules;
  - the dispatch of `run`, `cont`, `backtrace` and `quit` over the optional inferior;
  - `to_kill`.

  The terminal is a script of `readline` results, and printed lines are collected as `Reply` values. A source panic ends the session with the outcome `Panicked`.
- `session_properties.dfy` proves the session's promises.

**rust-wc** is a toy `wc`.

- `wc.dfy` (module `WordCount`) is `wc_default` and `main` of `rust-wc/src/main.rs`. The counting loop is proved against a reference definition:
  - bytes are the UTF-8 length;
  - lines are the number of line feeds in the text's multiset;
  - words are the number of positions where ASCII whitespace is followed by an alphanumeric or ASCII-punctuation character, plus one for non-empty text.

  Text that starts with whitespace therefore counts one word more than it has (`" a"` gives 2). That is what the code does.
- `wc_helper.dfy` (module `WcHelper`) is the twin `wc_default` of `rust-wc/src/helper.rs`. It has its own loop, proved against the same definition. It adds the `as i32` cast of the byte count and the printed line. A reader of that line gives the format a round trip.

The model keeps these behaviours of the code:
- the breakpoint table is never cleared, so stale entries survive a dead child and a failed launch;
- `break`, `info` and `disassemble` are parsed but never dispatched;
- several failures panic instead of being reported:
  - `backtrace` on a child that has ended;
  - `b`, `break` or `info` with no argument;
  - an unexpected read error at the prompt;
  - a breakpoint address that cannot be written at launch;
- `rip - 1` at a stop is not range-checked;
- deet/src/debugger.rs calls `Inferior::new(&self.target, &args)` and `cont_exec()` with fewer arguments than deet/src/inferior.rs declares. The model supplies the missing ones from the session: its pending breakpoint addresses (`breakset`) and its breakpoint table.

## Model

| member | source | states |
|---|---|---|
| `Words.AlignAddrToWordBounds` | deet/src/inferior.rs:50-52 | the aligned address is a multiple of 8, at most the address, and less than 8 below it |
| `Words.ByteOffset` | deet/src/inferior.rs:200-201 | the byte offset inside the word is always 0..7 |
| `Words.PatchWordLanes` | deet/src/inferior.rs:203-205 | the written-back word holds `val` in lane `off` and the other seven lanes of the word read |
| `Words.PatchWordRestores` | deet/src/inferior.rs:199-214 | putting back the lane a patch displaced gives the original word, for every offset |
| `Words.PokeByte` | deet/src/inferior.rs:199-214 | a byte write changes only the word at the aligned address; the set of mapped words is unchanged |
| `Words.PokeByteAt` | deet/src/inferior.rs:199-214 | after a byte write, that byte reads back as the value written and every other byte is unchanged |
| `Words.PokeByteRoundTrip` | deet/src/inferior.rs:199-214 | writing `v`, then writing back the byte it displaced, restores memory exactly |
| `Words.ReadHoldingWord` | deet/src/inferior.rs:202 | the read of the aligned word succeeds exactly when the byte's word is mapped, and returns that word |
| `InferiorProcess.Install` | deet/src/inferior.rs:89-101 | patching the breakpoints never maps or unmaps memory |
| `InferiorProcess.ContainsOccurs` | deet/src/inferior.rs:179 | the substring test holds exactly when the pattern occurs at some position |
| `InferiorProcess.Inferior.constructor` | deet/src/inferior.rs:86-88 | a new inferior holds the launched child's pid, memory and registers and is traceable |
| `InferiorProcess.Inferior.New` | deet/src/inferior.rs:61-114 | no inferior and an unchanged table unless the first stop is SIGTRAP; then a write failure exactly when some breakpoint address is unmapped; otherwise a fresh traceable child with every address patched and recorded as `Install` says |
| `InferiorProcess.Inferior.InstallBreakpoints` | deet/src/inferior.rs:89-101 | the loop fails exactly when some address is unmapped; otherwise memory and table are those of `Install` |
| `InferiorProcess.Inferior.Peek` | deet/src/inferior.rs:202 | a word read fails with ESRCH on an ended child, otherwise gives the aligned mapped word or EIO |
| `InferiorProcess.Inferior.Poke` | deet/src/inferior.rs:207-211 | a word write to an ended child or unmapped address fails and changes nothing; otherwise it replaces that one word |
| `InferiorProcess.Inferior.WriteByte` | deet/src/inferior.rs:199-214 | returns the byte that was at the address, leaves `val` there and nothing else changed; an ended child or unmapped address gives the error and an unchanged memory |
| `InferiorProcess.Inferior.Wait` | deet/src/inferior.rs:123-133 | exit maps to `Exited(code)`, death by signal to `Signaled(sig)`, a stop to `Stopped(sig, rip)`; the child state follows the event |
| `InferiorProcess.Inferior.RestoreOriginal` | deet/src/inferior.rs:143-147 | the saved byte is written back at `rip-1` and `rip` is rewound onto it |
| `InferiorProcess.Inferior.StepOverBreakpoint` | deet/src/inferior.rs:143-158 | restore, rewind, single-step; a terminal status is returned with the trap not re-armed, otherwise `0xcc` is written again at `rip-1` |
| `InferiorProcess.Inferior.ContExec` | deet/src/inferior.rs:136-162 | new state and result are those of `ContExecSpec`: ESRCH on an ended child, step over the breakpoint just hit, then continue to the next stop |
| `InferiorProcess.Inferior.ContinueFromStop` | deet/src/inferior.rs:143-161 | from a stop, the step-over (if `rip-1` is a breakpoint) and the free run of `cont_exec` |
| `InferiorProcess.Inferior.Continue` | deet/src/inferior.rs:160-161 | `ptrace::cont` then `wait`: the child state and status follow the next event |
| `InferiorProcess.Inferior.Kill` | deet/src/inferior.rs:165-168 | after killing and reaping, the child can no longer be traced |
| `InferiorProcess.Inferior.ReadCaller` | deet/src/inferior.rs:183-184 | the two reads of one unwinding step, in source order, give the caller's frame that `CallerOfReads` characterises |
| `InferiorProperties.CallerOfReads` | deet/src/inferior.rs:183-184 | the caller's frame is read exactly when `rbp` is word-aligned and `[rbp+8]` and `[rbp]` are both mapped, and is then (saved return address, saved frame pointer); an unreadable `[rbp+8]` fails the step with EIO whatever `[rbp]` holds |
| `InferiorProcess.Inferior.PrintBacktrace` | deet/src/inferior.rs:171-190 | the frames emitted and how the walk ended are those of `Unwind` from the current `rip` and `rbp` |
| `InferiorProperties.AfterWaitStatus` | deet/src/inferior.rs:123-133 | after a wait the child is traceable exactly when the status is a stop, and the status carries its `rip` |
| `InferiorProperties.ContExecOutcome` | deet/src/inferior.rs:136-162 | `cont_exec` errs exactly on an ended child and then changes nothing; afterwards the child is traceable exactly when the status is a stop at its `rip` |
| `InferiorProperties.ContExecOffBreakpoint` | deet/src/inferior.rs:141-161 | when `rip-1` is not a breakpoint, memory and registers are untouched before the child continues |
| `InferiorProperties.RestoredView` | deet/src/inferior.rs:143-147 | after the restore the trap address holds the saved byte, every other byte is unchanged, and `rip` is the trap address |
| `InferiorProperties.StepEndedLeavesOriginal` | deet/src/inferior.rs:151-153 | if the single step ends the child, its final status is returned and the original byte stays in place |
| `InferiorProperties.StepStoppedRearms` | deet/src/inferior.rs:154-156 | if the child is still stopped after the step, the trap address holds `0xcc` again and every other byte is as the step left it |
| `InferiorProperties.StepOverRestoresMemory` | deet/src/inferior.rs:143-157 | when the stepped instruction writes no memory, stepping over an armed breakpoint leaves memory exactly as it was |
| `InferiorProperties.StepOverKeepsArmed` | deet/src/inferior.rs:143-157 | every breakpoint that held `0xcc` before a step-over still does after it, when the single step leaves those bytes alone |
| `InferiorProperties.ContExecKeepsArmed` | deet/src/inferior.rs:136-162 | if neither the single step nor the free run overwrites the bytes at breakpoint addresses, every breakpoint still holds `0xcc` after a whole `cont_exec` that leaves the child alive, so it traps again on later passes |
| `InferiorProperties.InstallFirst` | deet/src/inferior.rs:89-101 | one turn of the install loop patches the first address and records its byte, then installs the rest |
| `InferiorProperties.InstallPatchesMemory` | deet/src/inferior.rs:89-101 | after installation every listed address holds `0xcc` and every other byte is unchanged |
| `InferiorProperties.InstallRecordsOriginals` | deet/src/inferior.rs:95-101 | with distinct addresses, the table gains exactly the listed addresses, each recorded with the byte it held before; other entries are kept |
| `InferiorProperties.InstallTwiceSavesTrap` | deet/src/inferior.rs:89-101 | an address listed twice ends up recorded with `0xcc` as its saved byte |
| `InferiorProperties.InstallKeys` | deet/src/inferior.rs:89-101 | after installation the table's keys are the old keys plus the listed addresses, whether or not some are listed twice |
| `InferiorProperties.InstallArms` | deet/src/inferior.rs:89-101 | when the table only holds addresses being installed, every recorded breakpoint holds `0xcc` afterwards |
| `InferiorProperties.UnwindShape` | deet/src/inferior.rs:177-187 | the current frame is emitted first; a frame is the entry function exactly when it is the last one and the walk reached it; at most `fuel` frames |
| `InferiorProperties.UnwindReachesMain` | deet/src/inferior.rs:177-187 | a frame-pointer chain of `n` frames ending in the entry function is walked to the end, emitting exactly `n` frames |
| `InferiorProperties.UnwindReachedMainIsChain` | deet/src/inferior.rs:177-187 | conversely, a walk that reaches the entry function followed such a chain |
| `DebuggerCommands.FromTokens` | deet/src/debugger_command.rs:12-42 | a command exactly for a known first token, the one that token spells; `run` takes all later tokens in order, `break`/`info` the second token |
| `DebuggerCommands.FromTokensRoundTrip` | deet/src/debugger_command.rs:12-42 | every command parses back from its canonical tokens |
| `DebuggerCommands.NamesDistinguish` | deet/src/debugger_command.rs:13-40 | no spelling names two different commands |
| `DebuggerCommands.AliasesAgree` | deet/src/debugger_command.rs:14-38 | every alias of a command parses like its canonical keyword, whatever tokens follow |
| `Session.SplitWhitespaceWords` | deet/src/debugger.rs:146 | every token is non-empty and contains no whitespace |
| `Session.SplitWhitespaceConcat` | deet/src/debugger.rs:146 | the tokens, concatenated, are the line with its whitespace removed |
| `Session.SplitWhitespaceBlank` | deet/src/debugger.rs:136-146 | a line has no token exactly when it is blank once trimmed |
| `Session.SplitWhitespaceAtSpace` | deet/src/debugger.rs:146 | a whitespace character separates tokens: the tokens of `a + [c] + b` are those of `a` followed by those of `b` |
| `Session.SplitWhitespaceWord` | deet/src/debugger.rs:146 | a non-empty run of non-whitespace characters is exactly one token |
| `Session.NextCommandSpec` | deet/src/debugger.rs:120-155 | the prompt never goes back in the input; it stays put only at end of input, and then the command is `quit` |
| `Session.NextCommandSkips` | deet/src/debugger.rs:121-153 | every input before the one that produced the command was Ctrl-C, a blank line or an unrecognised command |
| `Session.NextCommandFrom` | deet/src/debugger.rs:128-151 | the command is `quit` at end of input or end of file, or else the parse of the non-blank line just read |
| `Session.Debugger.constructor` | deet/src/debugger.rs:36-42 | the session starts with no inferior and an empty breakpoint table |
| `Session.Debugger.GetNextCommand` | deet/src/debugger.rs:120-155 | the re-prompting loop yields the command, position and printed lines of `NextCommandSpec` |
| `Session.Debugger.ToKill` | deet/src/debugger.rs:107-114 | kills the held inferior and prints its pid, without letting go of it; a no-op with none |
| `Session.Debugger.DoRun` | deet/src/debugger.rs:48-68 | the state and lines of `RunSpec`: kill first, then launch; on success hold the new child and continue it once; the inferior held before is dead afterwards |
| `Session.Debugger.DoCont` | deet/src/debugger.rs:70-80 | with no inferior, an error line; otherwise `cont_exec` on the held child and its status printed |
| `Session.Debugger.DoBack` | deet/src/debugger.rs:82-96 | with no inferior, an error line; an ended child panics; otherwise the backtrace lines, and nothing changes |
| `Session.Debugger.Dispatch` | deet/src/debugger.rs:47-102 | one turn of the loop behaves as `DispatchSpec`; the held inferior is the old one or a fresh one; after `run` or `quit` the inferior held before is dead |
| `Session.Debugger.Turn` | deet/src/debugger.rs:46-102 | one read-and-dispatch; while the session goes on, it consumes input and the rest of the session follows from the new position |
| `Session.Debugger.Run` | deet/src/debugger.rs:45-104 | the whole loop yields the final state, outcome and printed lines of `SessionSpec` |
| `SessionProperties.KillKeepsChild` | deet/src/debugger.rs:107-114 | `to_kill` leaves the child held, with the same pid, memory and registers, no longer traceable, and prints its pid |
| `SessionProperties.RunKillsFirst` | deet/src/debugger.rs:48-49 | `run` begins with `to_kill`'s output and never quits the session |
| `SessionProperties.RunFailedLaunch` | deet/src/debugger.rs:51-67 | a failed launch leaves the killed child held and prints the failure |
| `SessionProperties.RunReplacesChild` | deet/src/debugger.rs:51-64 | a successful launch holds the new child with breakpoints installed, continued exactly once, its status printed last |
| `SessionProperties.NoChildNoChange` | deet/src/debugger.rs:70-86 | `cont` or `backtrace` with no inferior prints an error and changes nothing |
| `SessionProperties.ContKeepsChild` | deet/src/debugger.rs:75-79 | `cont` continues the held child in place, same pid and table |
| `SessionProperties.BackChangesNothing` | deet/src/debugger.rs:82-96 | `backtrace` changes nothing and panics exactly when the held child has ended |
| `SessionProperties.QuitKillsAndExits` | deet/src/debugger.rs:98-101 | only `quit` ends the session normally, and it leaves any held child dead |
| `SessionProperties.BacktraceRepliesFrames` | deet/src/inferior.rs:177-186 | one printed line per frame in order, then the read error that ended the walk, if any |
| `SessionProperties.EofQuits` | deet/src/debugger.rs:128-131 | end of file at the prompt is `quit`: the child is killed and the session ends |
| `SessionProperties.BlankLineSkipped` | deet/src/debugger.rs:136-138 | a blank line is skipped silently |
| `SessionProperties.SessionEnds` | deet/src/debugger.rs:45-104 | on a finite input, the loop ends only by `quit` (end of input included) or a panic, never still running |
| `SessionProperties.QuitLeavesNoLiveChild` | deet/src/debugger.rs:98-101 | a session that quits leaves the held child, if any, dead |
| `SessionProperties.InstallKeepsEntries` | deet/src/inferior.rs:89-101 | installation only adds table entries |
| `SessionProperties.DispatchKeepsBreakpoints` | deet/src/debugger.rs:47-102 | no command forgets a recorded breakpoint |
| `SessionProperties.SessionKeepsBreakpoints` | deet/src/debugger.rs:45-104 | over a whole session the breakpoint table only grows |
| `SessionProperties.DispatchStaysWithinBreakset` | deet/src/debugger.rs:47-102 | no command records a breakpoint outside the session's breakpoint addresses |
| `SessionProperties.SessionStaysWithinBreakset` | deet/src/debugger.rs:45-104 | from the constructor's empty table onward, the table holds only the session's breakpoint addresses |
| `SessionProperties.RunArmsBreakpoints` | deet/src/debugger.rs:51-55 | every `run` hands `cont_exec` a child whose recorded breakpoints all hold `0xcc` |
| `WordCount.Utf8LengthBounds` | rust-wc/src/main.rs:17 | the byte count is between one and four per character, and positive exactly for non-empty text |
| `WordCount.Utf8LengthAscii` | rust-wc/src/main.rs:17 | ASCII text has one byte per character |
| `WordCount.WordStartsStep` | rust-wc/src/main.rs:28-32 | one more character adds its position to the word starts exactly when whitespace precedes a word character |
| `WordCount.WordStartsBelowBound` | rust-wc/src/main.rs:28-34 | the in-loop word count never exceeds the number of positions after the first |
| `WordCount.EmptyCountsNothing` | rust-wc/src/main.rs:37-41 | empty input gives (0, 0, 0) |
| `WordCount.NoWordCharacterOneWord` | rust-wc/src/main.rs:28-39 | non-empty text with no alphanumeric or punctuation character (whitespace only, say) counts one word |
| `WordCount.FirstCharacterNotCounted` | rust-wc/src/main.rs:20-28 | `char::MAX` is not whitespace, so the first character never counts as a word start |
| `WordCount.CountsBounded` | rust-wc/src/main.rs:23-39 | lines and words are each at most the number of characters |
| `WordCount.CountsAppend` | rust-wc/src/main.rs:17-26 | bytes and lines of a concatenation are the sums of the parts |
| `WordCount.WcDefault` | rust-wc/src/main.rs:16-43 | the one-pass loop computes exactly the UTF-8 length, the line-feed count and the word-start count plus one for non-empty text |
| `WordCount.ReadFromStdin` | rust-wc/src/main.rs:8-14 | an unreadable standard input aborts; otherwise the counts are those of the text read |
| `WordCount.WcMain` | rust-wc/src/main.rs:45-69 | with no file argument, standard input is counted and an unreadable one aborts; otherwise an unreadable file aborts, and the totals are those of the last file only |
| `WcHelper.AsI32Range` | rust-wc/src/helper.rs:8 | the `as i32` byte count is in the `i32` range, congruent to the length modulo 2^32, and exact below 2^31 |
| `WcHelper.NatToStringDigits` | rust-wc/src/helper.rs:31 | a count prints as a non-empty run of digits that reads back as the count |
| `WcHelper.ReadIntRoundTrip` | rust-wc/src/helper.rs:31 | a printed integer, negative ones included, reads back as itself |
| `WcHelper.OutputLineReadsBack` | rust-wc/src/helper.rs:31 | the printed line reads back as lines, words, bytes and file name, in that order |
| `WcHelper.WcDefault` | rust-wc/src/helper.rs:7-32 | prints `" {lines} {words} {bytes} {filename}"` with the counts of `wc_default` in main.rs and the byte count cast to `i32` |

## Left out

- Real ptrace, waitpid, fork/exec and kill calls are replaced by the `Kernel` oracle: a total function from the child's memory and registers to what happens next. Process concurrency and timing are not modelled.
- Errors of `waitpid`, `getregs`, `setregs`, `ptrace::step` and `ptrace::cont` on a live child are not modelled. The model's only tracing errors are ESRCH on an ended child and EIO on an unmapped address. The same holds for the panics these errors cause: the `Unexpected error` panic at spawn and the `unwrap` after the step's wait.
- `wait`'s panic on an unexpected wait status is not modelled: an `Event` is an exit, a death by signal or a stop.
- `InferiorProcess.CallerOf` reads only word-aligned addresses, so a backtrace through an unaligned frame pointer ends with a read error in the model. On x86-64 `ptrace::read` accepts any address.
- `InferiorProcess.TrapAddr` wraps `rip - 1` around at 0, as a release build does. The overflow panic of a debug build is not modelled.
- `InferiorProcess.CallerOf` wraps `rbp + 8` the same way.
- `InferiorProcess.Inferior.PrintBacktrace` requires a live child. The source's `getregs(...).unwrap()` panics otherwise, and the session models that panic.
- The symbol resolver's `unwrap`s on a missing line or function are taken as a resolver that always answers.
- The backtrace walk is bounded by `fuel`. The source loops for as long as the frame-pointer chain never reaches a function containing `main`.
- `Debugger::new`'s loading of debug information, its history file, and the `exit` on a load failure are not modelled. The same goes for the readline editor, history saving and its warning, and the exact text of printed lines (including `Display` for `Status`).
- `get_stop_line` is not modelled: nothing in the modelled dispatcher calls it.
- `Debugger::run`'s `match` has no arm for `Break`, `Info` or `Disassemble`; the model replies with nothing and changes nothing. The source resolves no breakpoint symbol, merges no pending list and rejects no duplicate, and neither does the model.
- `Debugger` has no breakpoint field; the pending breakpoint list is a constructor parameter (`breakset`), and no command changes it.
- deet's disassembler and the inspect-fd and webservice crates are not part of this model.
- `WordCount.WcDefault`: `char::is_alphanumeric` is modelled on ASCII only, so non-ASCII letters and digits do not start words in the model.
- `WcHelper.WcDefault`: the same ASCII restriction applies.
- `WordCount.WcDefault`: the `u32` line and word counters are unbounded integers here. `WcHelper.WcDefault`'s `i32` counters are too. Overflow past 2^32 or 2^31 characters is not modelled.
- Reading standard input and files is a parameter: `stdin` is `None` when the read fails, and files are a map from names to contents. `None`, or a file missing from the map, stands for any read failure, including invalid UTF-8.
- helper.rs's `read_from_stdin` has an empty body and is not modelled.
- `SessionProperties.QuitLeavesNoLiveChild`: covers only the held child. When the first stop of a launch is not SIGTRAP, `Inferior::new` returns `None` and drops the spawned `Child` without killing it. That traced process stays alive and untracked, and the model does not record it.
- `SessionProperties.SessionEnds`: termination rests on a finite input, a fuel-bounded backtrace and an oracle that always answers. The source's backtrace loop can run forever on a cyclic frame-pointer chain.
