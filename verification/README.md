# A verified model of go-peggy

go-peggy compiles parsing expression grammars to a small bytecode and runs it on a
backtracking virtual machine.  This project models its three working parts in Dafny and
proves what they promise, for every listing, every program and every input.

* **The assembler** (`Assembly`, `Relaxation`, `Worklist`, `LastResort`, `Foresight`,
  `Optimality`, `Assembler`, `Overshoot`, `Layout`).  Branches start at their greatest length and are
  shortened until nothing changes; what is still pending is forced by a last-resort pass;
  then addresses are handed out.  The item objects, their blocking lists and the worklist
  are real objects updated in place; a ghost field mirrors their values.  Proved: the
  relaxation invariant, that the worklist drains and the rounds end, that no length ever
  grows, that the lengths settled on are the greatest consistent ones, and *exactly when*
  every branch lands on its label, a condition read off the settled lengths.
* **The bytecode and the machine** (`Words`, `Immediates`, `Instructions`, `ByteCode`,
  `Decoder`, `Machine`, `MachineInvariants`, `Semantics`, `Endings`, `Captures`, `Recording`,
  `Termination`, `Equivalences`, `Lookahead`, `Returns`, `Safety`, `Execution`, `Matching`,
  `SampleCode`, `Samples`, `SampleMatches`, `Witnesses`).  A transition function on values, with Go's
  wrap-around and panics written out, carries the theorems about whole runs.  The class
  `Execution` is the machine as it runs, its capture stack a slice of an array that saved
  frames share; each of its methods is proved to do what the transition function does.
* **The byte sets** (`Bitmaps`, `RangeSets`, `UnionMerge`, `Matchers`): bitmaps, sorted
  ranges with binary search, the union merge, and the optimizer, which rewrites shared
  negations in place.

Assembler and machine meet in `Layout.AssembledProgramsAreSafe`: a listing whose code
offsets are all labels and whose last-resort pass was clean assembles to a program that, on
every input and after any number of steps, stands on an instruction boundary, has met
nothing it could not decode, and has not panicked.

## Where the code and its description differ

The model follows the code; each difference has a theorem saying exactly when the two agree.

* *A step towards zero in the last resort* (`peggyvm/assembler.go:285-292`).  It is right for
  an instruction that then shrinks by one byte and has not been counted by a forward branch.
  `Foresight.LandsIffClean` gives the exact condition; `Overshoot.Assemble` emits a listing of
  32765 items and assembles it to a program whose only branch misses its label.
* *Immediates are merged into their default with "or"* (`peggyvm/opcode.go:142-157`), so an
  explicit even count decodes one larger: `Instructions.InstructionSurvives`.
* *`RET` tests for the wrong kind of frame* (`peggyvm/execution.go:241`, against
  `peggyvm/doc.go:272-274`): `Returns.RetAsDescribed`.  So no call ever returns
  (`Returns.CallNeverReturns`), and `CALL; RET` is an error (`Witnesses.ReturningFaults`).
* *Adjacent ranges are not merged* (`byteset/range.go:157`, against
  `byteset/range.go:129-134`): `RangeSets.AdjacentStayApart`.

## Reading the model

* `byte`, `u64`, `i64`, `u32` are ranges of `int`; where Go wraps, the model says so
  (`ToU64`, `ToI64`, `Negate`).  A byte slice is shorter than 2^63.
* A program's byte set stands for the set of bytes its matcher matches; that every matcher
  computes such a set, before and after optimization, is `Matchers.Match` and
  `Matchers.Optimize`.
* A listing has at most 2^63 / 26 items, so that the sum of all lengths is an `int64`; a Go
  program cannot hold a longer one.
* The preconditions of the emission methods exclude exactly what the assembler asserts: an
  empty label name, a label emitted twice (`peggyvm/assembler.go:341-342`), a label operand
  in a slot that is no code offset.
* Code offsets occupy the first operand slot, as in every row of the instruction table.
* Sorting is insertion sort and searching is binary search, both proved; Go's own are not
  modelled beyond what they promise.
* A channel is the sequence of what is sent on it and a read position.

## Model

| member | source | states |
|---|---|---|
| Words.SignedConversionsInverse | peggyvm/util.go:73-86 | `s2u` and `u2s` are inverse on every 64-bit value, the least one included, and preserve the value modulo 2^64 |
| Words.AddOffsetExact | peggyvm/util.go:92-105 | `addOffset` returns the exact sum whenever it is a 64-bit address and panics exactly when it is not |
| Immediates.WidthThresholds | peggyvm/opcode.go:183-203 | the encoder's byte-by-byte tests choose the width by the value's magnitude, zero- or sign-extended |
| Immediates.WidthCorrectAndMinimal | peggyvm/opcode.go:168-206 | of the widths 1, 2, 4, 8 the chosen one holds the value and exactly the wider ones do too |
| Immediates.WidthMonotone | peggyvm/opcode.go:183-203 | for a fixed sign, a value closer to zero never takes a wider form |
| Immediates.ExtendInvertsEncode | peggyvm/opcode.go:155-206 | zero- or sign-extending the encoded bytes gives back every 64-bit value |
| Immediates.PresentImmediateDecodes | peggyvm/opcode.go:141-206 | a present immediate decodes without error to the value "or" the slot's default |
| Immediates.ImmediateRoundTrip | peggyvm/opcode.go:141-206 | encoding then decoding never fails, and gives the value back iff it has every bit of the slot's default (in an unused slot: iff it is the default) |
| Immediates.EvenCountGainsOne | peggyvm/opcode.go:142-157 | with default 1, an explicit even count decodes one larger and an odd one unchanged |
| Immediates.ReencodingNoLonger | peggyvm/opcode.go:141-206 | an immediate decoded from any permitted width re-encodes to no more bytes |
| Immediates.ReadImm | peggyvm/opcode.go:141-165 | the decoder's two loops compute the default merged with the extended number, with the errors for missing and unexpected immediates |
| Instructions.InstructionRoundTrip | peggyvm/opcode.go:227-252 | a legal instruction, inside any surrounding bytes, decodes to its code, its exact length and its operands as read back |
| Instructions.InstructionSurvives | peggyvm/op.go:61-166 | an instruction decodes to itself iff its optional counts are odd and its unused slots zero |
| Instructions.ReencodingNeverGrows | peggyvm/op.go:84-165 | whatever bytes decode, re-encoding what they decoded to takes no more bytes, header included |
| Instructions.DecodesAtEveryAddress | peggyvm/op.go:61-166 | in a concatenation of encodings, decoding at each instruction's address finds exactly that instruction, and at the end the end |
| Instructions.SweepRecoversProgram | peggyvm/program.go:123-155 | a linear sweep from any instruction's address recovers the remaining instructions with their addresses, in order |
| Decoder.Op.Decode | peggyvm/op.go:61-166 | overwrites the object with what the decoding function gives, and returns end of code or the same error where that gives none |
| ByteCode.BareBytes | peggyvm/opcode.go:11-48 | the bytes of `NOP`, `FAIL`, `RET`, `FAIL2X`, `GIVEUP` and `END`, whatever follows them |
| ByteCode.ShortBytes | peggyvm/opcode.go:11-48 | the bytes of `CHOICE`, `COMMIT` and `LITB` with any one-byte operand, offsets sign-extended |
| ByteCode.BranchBytes | peggyvm/opcode.go:11-48 | the bytes of `JMP`, `CALL`, `PCOMMIT` and `BCOMMIT` with any one-byte offset |
| ByteCode.IndexBytes | peggyvm/opcode.go:11-48 | the bytes of `SPANB`, `RWNDB`, `BCAP` and `ECAP` with any one-byte operand |
| ByteCode.AnyBytes | peggyvm/opcode.go:11-48 | the bytes of `ANYB` without and with a count |
| ByteCode.RepeatBytes | peggyvm/opcode.go:11-48 | the bytes of `SAMEB` and `MATCHB` without and with a count |
| ByteCode.TestAnyBytes | peggyvm/opcode.go:11-48 | the bytes of `TANYB` without and with a count |
| ByteCode.TestSameBytes | peggyvm/opcode.go:11-48 | the bytes of `TSAMEB` with two and with three operands |
| ByteCode.TestLitBytes | peggyvm/opcode.go:11-48 | the bytes of `TLITB` |
| ByteCode.TestMatchBytes | peggyvm/opcode.go:11-48 | the bytes of `TMATCHB` with two and with three operands |
| ByteCode.FullCaptureBytes | peggyvm/opcode.go:11-48 | the bytes of `FCAP` |
| ByteCode.WideOffsetBytes | peggyvm/opcode.go:155-164 | an offset of two bytes, low byte first, sign-extended |
| ByteCode.WideIndexBytes | peggyvm/opcode.go:155-164 | an index of two bytes, low byte first |
| ByteCode.LongIndexBytes | peggyvm/opcode.go:155-164 | an index of four bytes, low byte first |
| ByteCode.BadBytes | peggyvm/op.go:70-166 | which error each of: no bytes, half a header, a missing operand byte, a missing and an unexpected operand |
| ByteCode.BadLengthBytes | peggyvm/op.go:106-115 | a length code above four is an error |
| ByteCode.ReservedBytes | peggyvm/op.go:139-144 | every reserved opcode is an error |
| MachineInvariants.MatchNExact | peggyvm/execution.go:95-105 | with the data pointer in range, matches iff enough bytes are left and all of them are in the set |
| MachineInvariants.MatchLitExact | peggyvm/execution.go:107-118 | with the data pointer in range, matches iff the literal stands there |
| MachineInvariants.StepInBounds | peggyvm/execution.go:138-375 | a step keeps every data pointer, saved or recorded, within the input and every capture index in range, and reads only inside the input |
| MachineInvariants.EveryRunInBounds | peggyvm/execution.go:382-390 | the same after any number of steps from the start, for every program and input |
| MachineInvariants.StepChained | peggyvm/execution.go:45-55 | a step keeps the snapshots of live choice frames a chain of prefixes up to the current capture stack |
| MachineInvariants.RunChained | peggyvm/execution.go:382-390 | the same for whole runs |
| Semantics.FailBacktracks | peggyvm/execution.go:120-135 | a failure drops the call frames above the topmost choice, restores its data pointer, address and captures, and keeps what lies below |
| Semantics.FailGivesUp | peggyvm/execution.go:120-135 | with no choice on the stack a failure empties it, drops the captures and ends the match |
| Semantics.AnyLaw | peggyvm/execution.go:192-197 | `ANYB n` goes past `n` bytes iff there are as many, and else fails |
| Semantics.SameLaw | peggyvm/execution.go:199-204 | `SAMEB b, n` goes past `n` bytes iff they are there and all `b` modulo 256, and else fails |
| Semantics.LitLaw | peggyvm/execution.go:206-214 | `LITB l` goes past the literal iff it stands there, else fails; a bad index is an error |
| Semantics.MatchLaw | peggyvm/execution.go:216-224 | `MATCHB m, n` goes past `n` bytes iff they are there and all in the set, else fails; a bad index is an error |
| Semantics.TestAnyLaw | peggyvm/execution.go:246-251 | `TANYB off, n` goes past `n` bytes iff there are as many, else to `off` |
| Semantics.TestSameLaw | peggyvm/execution.go:253-258 | `TSAMEB off, b, n` likewise, for `n` bytes all `b` |
| Semantics.TestLitLaw | peggyvm/execution.go:260-268 | `TLITB off, l` likewise, for a literal; a bad index is an error |
| Semantics.TestMatchLaw | peggyvm/execution.go:270-278 | `TMATCHB off, m, n` likewise, for `n` bytes all in the set; a bad index is an error |
| Semantics.SpanLaw | peggyvm/execution.go:305-311 | `SPANB m` goes to the first byte not in the set, or to the end |
| Semantics.JumpLaw | peggyvm/execution.go:226-227 | `JMP off` goes to the address `off` away, and panics if there is none |
| Semantics.ChoiceLaw | peggyvm/execution.go:171-177 | `CHOICE off` pushes data pointer, target and captures |
| Semantics.CallLaw | peggyvm/execution.go:229-234 | `CALL off` pushes the address after it and goes |
| Semantics.PopEmptyLaw | peggyvm/execution.go:179-183 | every popping instruction is an error on the empty stack |
| Semantics.PopCallLaw | peggyvm/execution.go:184-186 | and on a call frame, which it drops, each with its own error |
| Semantics.CommitLaw | peggyvm/execution.go:179-187 | `COMMIT` drops the choice, keeps data pointer and captures, and goes |
| Semantics.PartialCommitLaw | peggyvm/execution.go:280-291 | `PCOMMIT` replaces the choice by one made here |
| Semantics.BackCommitLaw | peggyvm/execution.go:293-303 | `BCOMMIT` drops the choice, restores its data pointer and captures, and goes |
| Semantics.FailTwiceLaw | peggyvm/execution.go:313-321 | `FAIL2X` drops the choice and fails |
| Semantics.ReturnLaw | peggyvm/execution.go:236-244 | `RET` on a choice goes to its address and keeps everything else |
| Semantics.RewindLaw | peggyvm/execution.go:323-327 | `RWNDB n` goes back `n` bytes, and is an error if there are fewer |
| Semantics.EdgeLaw | peggyvm/execution.go:347-365 | `BCAP c` and `ECAP c` record the data pointer as start and end of capture `c`; a bad index is an error |
| Semantics.FullLaw | peggyvm/execution.go:329-345 | `FCAP c, n` records the last `n` bytes as capture `c`, with both errors |
| Semantics.StopLaw | peggyvm/execution.go:367-374 | what `FAIL`, `GIVEUP`, `END` and `NOP` do |
| Semantics.OffLaw | peggyvm/execution.go:138-153 | the end of the code is success, undecodable bytes an error, a halted execution stays as it is |
| Endings.LastStep | peggyvm/execution.go:382-390 | every run that has ended was ended by one step from a running state, whose outcome is the run's |
| Endings.StepEnds | peggyvm/execution.go:138-375 | a step succeeds iff it stands at `END` or the end of the code, and fails the match iff it is `GIVEUP` or a failure with no choice left |
| Endings.RunEnds | peggyvm/execution.go:382-390 | a match from the start that halts has succeeded, or failed, iff its last step was such a one |
| Captures.Collect | peggyvm/program.go:282-300 | panics iff some index is out of range; otherwise, for each capture, `Exists` iff an end was recorded, `Multi` one pair per end in order, each from the last start since the end before or zero, and `Solo` the last of them |
| Captures.SummaryReports | peggyvm/program.go:284-300 | the recursive description of the events meets that description by positions |
| Captures.ReportsUnique | peggyvm/program.go:284-300 | and what is recorded leaves only one report that does |
| Captures.EventsWellFormed | peggyvm/program.go:284-300 | assignments whose ends come no earlier than anything before them report pairs that start no later than they end |
| Captures.StepOrdered | peggyvm/execution.go:329-365 | a step other than `RWNDB` keeps recorded ends no earlier than anything recorded before, and nothing live beyond the data pointer saved with it |
| Captures.CapturesWellFormed | peggyvm/program.go:275-302 | on every run without `RWNDB` each reported pair satisfies 0 <= S <= E <= len(input), and every index is in range |
| Captures.UnsuccessfulReportsNothing | peggyvm/execution.go:123-127 | a run that ends in failure or error reports no capture |
| Recording.BodyExtends | peggyvm/execution.go:45-55 | while a run gives up no frame below a depth, what was recorded before stays recorded, whatever it tries and takes back |
| Recording.CapturesOnce | peggyvm/execution.go:347-365 | `BCAP c; body; ECAP c` adds exactly one event of capture `c`, from the one data pointer to the other, and none of a capture the body does not record |
| Recording.FullCapture | peggyvm/execution.go:329-345 | `FCAP c, n` adds exactly one event of capture `c`, over the last `n` bytes, and none of any other |
| Witnesses.RewindBreaksPairs | peggyvm/execution.go:323-327 | with a rewind between start and end, a program succeeds and reports a pair that ends before it starts |
| Witnesses.CapturesItsOwn | peggyvm/execution.go:347-365 | seven concrete bytes: capture 1 is the first byte of the input, capture 0 nothing |
| Witnesses.CalleeBacktracks | peggyvm/execution.go:120-135 | eight concrete bytes: a failure in a called rule takes the caller's alternative and succeeds, on every input |
| Witnesses.GivesUpAnywhere | peggyvm/execution.go:367-369 | two concrete bytes: failure on every input, over any stack, with no captures left |
| Witnesses.ThreeAreThree | peggyvm/execution.go:192-197 | two concrete bytes, `ANYB 3`: goes past exactly three bytes, and fails where there are fewer |
| Termination.StepShrinks | peggyvm/execution.go:138-375 | in a program without negative code offsets each step lowers the sum of 3^(code left) over the current point and all frames, and none panics |
| Termination.ForwardProgramsHalt | peggyvm/execution.go:382-390 | such a program halts on every input within as many steps as that measure, without a panic |
| Equivalences.GreedyLoopIsSpan | peggyvm/execution.go:305-311 | `CHOICE; MATCHB; PCOMMIT; JMP` ends, on every input and stack, in the very state one `SPANB` anywhere ends in, each at its own end address; with a bad byte-set index both are the same error |
| SampleCode.LoopStands | peggyvm/data.go:31-207 | thirteen concrete bytes decode to such a loop and such a `SPANB` |
| Equivalences.TestIsGuardedMatch | peggyvm/execution.go:246-278 | each test-and-jump instruction does what the plain match with its operands after the offset does between `CHOICE` and `COMMIT`, errors included |
| SampleCode.TestStands | peggyvm/data.go:31-207 | eight concrete bytes decode to such a guarded match and such a test |
| Lookahead.GuardHolds | peggyvm/execution.go:120-135 | a body that does not pop its guard itself keeps it below its own frames for any number of steps, or has at some step failed into exactly the state the lookahead began in, at the alternative |
| Lookahead.BodyEnds | peggyvm/execution.go:120-135 | where a body's run ends, its depth alone tells: below the guard, the starting state is restored; at the guard, the stack is the starting one and the guard |
| Lookahead.NegativeLookahead | peggyvm/execution.go:313-321 | `CHOICE; body; FAIL2X`: if the body fails, goes on with data pointer, captures and stack unchanged; if it first arrives at `FAIL2X` at the guard's depth, is a failure of the starting state |
| Lookahead.PositiveLookahead | peggyvm/execution.go:293-303 | `CHOICE; body; BCOMMIT` with a `FAIL` at its alternative: if the body first arrives at `BCOMMIT` at the guard's depth, goes on with data pointer, captures and stack unchanged; if it fails, is a failure of the starting state |
| Samples.EndOfInput | peggyvm/peggyvm_test.go:30-36 | the end-of-input test both sample programs use, by negative lookahead: success exactly at the end, elsewhere a failure of the starting state |
| Witnesses.PeekConsumesNothing | peggyvm/execution.go:293-303 | seven concrete bytes, a positive lookahead for one byte: on every input, fails if it is empty and otherwise consumes nothing |
| Returns.RetAsDescribed | peggyvm/execution.go:236-244 | `RET` does what its description says iff the stack is empty |
| Returns.ReturnsUnused | peggyvm/execution.go:382-390 | two states that differ only in the addresses of their call frames run, for any number of steps, to outcomes that differ only there |
| Returns.CallNeverReturns | peggyvm/execution.go:229-244 | whatever runs after a `CALL`, for however long, comes out as if the call had been made from any other place |
| Witnesses.ReturningFaults | peggyvm/execution.go:236-244 | the five-byte program `CALL; RET` ends, on every input, in the error for a pending choice frame |
| Safety.StepSafe | peggyvm/execution.go:138-375 | in a program whose offsets lead to boundaries, a step from boundaries decodes, does not panic on an offset, and ends on boundaries, frames included |
| Safety.RunSafe | peggyvm/execution.go:382-390 | the same for whole runs, and no panic of any kind |
| Samples.Sample1Language | peggyvm/peggyvm_test.go:27-56 | the first sample program halts on every input, succeeds iff it ends in "ana", and captures the whole input |
| Samples.Sample2Language | peggyvm/peggyvm_test.go:79-112 | the second halts on every input, succeeds iff it is "b", "an" k times, "a", and captures the whole input and the k pairs (1+2i, 3+2i) in order |
| SampleMatches.MatchFirst | peggyvm/peggyvm_test.go:207-253 | what `Match` returns for the first sample program on every input, captures included |
| SampleMatches.MatchSecond | peggyvm/peggyvm_test.go:255-307 | what `Match` returns for the second on every input: capture 1 has `k` pairs and alone the last, (2k-1, 2k+1) |
| Execution.Append | peggyvm/execution.go:336-340 | appending writes at most one element past the slice, or into a fresh array |
| Execution.Execution.Assign | peggyvm/execution.go:336-365 | recording in place extends the current captures and disturbs no snapshot a live frame holds |
| Execution.Execution.Fail | peggyvm/execution.go:120-135 | the popping loop restores what the failure function restores |
| Execution.Execution.MatchN | peggyvm/execution.go:95-105 | the loop computes the matching function |
| Execution.Execution.MatchLit | peggyvm/execution.go:107-118 | the loop computes the literal-matching function |
| Execution.Execution.Step | peggyvm/execution.go:138-375 | on shared storage, state and return value after a step are those of the transition function on immutable sequences, whose every instruction `Semantics` describes |
| Execution.Execution.Run | peggyvm/execution.go:382-390 | on every program and input on which it ends, the loop ends where the run function ends, with the same return value |
| Execution.Execution.RunFor | peggyvm/execution.go:382-390 | any number of iterations of the loop agree with the run function |
| Execution.Execution.RunForward | peggyvm/execution.go:382-390 | without negative offsets the loop ends, halted and without a panic, where the run function ends |
| Matching.Match | peggyvm/program.go:275-302 | where the run ends, panics iff the run panics or returns an error; otherwise reports success iff the run succeeded, and for each capture what `Collect` promises |
| Assembly.NeedMonotone | peggyvm/opcode.go:227-252 | an offset of the same sign and closer to zero never needs a longer instruction |
| Assembly.NeedSteps | peggyvm/assembler.go:285-292 | one step towards zero saves bytes exactly at -129, -32769 and -2147483649, and exactly one byte only at -129 |
| Assembly.DistanceInRange | peggyvm/assembler.go:439-483 | every distance is an `int64` whose sign is the direction of the branch |
| Assembly.DistanceShrinks | peggyvm/assembler.go:439-483 | as lengths shrink, every distance only gets closer to zero |
| Relaxation.TrySetXPKeeps | peggyvm/assembler.go:362-382 | addresses handed out are the length of what precedes, all of it fixed; the relaxation invariant is kept and progress lowers the work |
| Relaxation.MaxLengthNeverGrows | peggyvm/assembler.go:401-407 | the length tried never exceeds the length held, so the assertion "max length grew" never fires |
| Relaxation.TryFixKeeps | peggyvm/assembler.go:384-409 | fixing or shortening keeps the relaxation invariant; progress lowers the work, and without it nothing measured changes |
| Relaxation.TryFixExact | peggyvm/assembler.go:394-399 | relaxation fixes only forward branches whose distance can no longer change |
| Relaxation.TurnKeeps | peggyvm/assembler.go:411-423 | one turn of the worklist keeps all of this, and without progress leaves its item stuck |
| Worklist.TurnShrinks | peggyvm/assembler.go:425-436 | each turn keeps parked and queued entries within their bound and lowers backward entries, then queue weight: the worklist drains |
| Optimality.EmittedRelaxes | peggyvm/assembler.go:212-223 | emission establishes the relaxation invariant |
| Optimality.TurnDominates | peggyvm/assembler.go:384-409 | no turn takes a length below any consistent assignment of lengths |
| Optimality.SettledConsistent | peggyvm/assembler.go:261-271 | the lengths settled on are themselves consistent: no branch is longer than its distance needs |
| LastResort.VisitOutcome | peggyvm/assembler.go:274-295 | what the pass writes into a pending item: its distance, one nearer exactly at the three critical distances |
| LastResort.BackwardLands | peggyvm/assembler.go:282-292 | a backward branch lands iff at its visit it needs its settled length and is not at -32769 or -2147483649 |
| LastResort.ForwardLands | peggyvm/assembler.go:279-294 | a forward branch lands iff nothing it jumps over gets shorter |
| LastResort.LandsIffVisitsClean | peggyvm/assembler.go:274-295 | after the pass every branch carries the distance to its label iff every backward branch was visited cleanly |
| Foresight.ScanForesees | peggyvm/assembler.go:274-295 | up to any item, a scan of the settled lengths finds every backward branch clean iff the pass does, and then foresees every length the pass leaves |
| Foresight.LandsIffClean | peggyvm/assembler.go:274-295 | after the pass every branch carries the distance to its label iff the scan, made before the pass, finds every backward branch clean |
| LastResort.QuietPassLands | peggyvm/assembler.go:274-295 | where no settled distance is critical, the pass changes no length and every branch lands |
| Overshoot.SettlesAtSix | peggyvm/assembler.go:261-271 | the jump back over 32763 bytes settles at six bytes, 32769 away |
| Overshoot.JumpMisses | peggyvm/assembler.go:285-292 | that jump does not land on its label |
| Overshoot.Assemble | peggyvm/assembler.go:226-309 | emitting that listing on an assembler and finishing it gives a program whose jump does not lead to its label |
| Assembler.Assembler.GrabLabel | peggyvm/assembler.go:94-113 | returns the one object a name stands for, made on first use |
| Assembler.Assembler.EmitLabel | peggyvm/assembler.go:115-119 | appends the label to the listing, which the objects keep representing |
| Assembler.Assembler.EmitOp | peggyvm/assembler.go:121-224 | appends the instruction, encoded if it names no label, and if it does at its placeholder length and in the list of those waiting for the label |
| Assembler.Assembler.TrySetXP | peggyvm/assembler.go:362-382 | on the objects, does what the step function does on the items |
| Assembler.Assembler.Distance | peggyvm/assembler.go:439-483 | the two loops compute the distance and whether everything measured is fixed |
| Assembler.Assembler.TryFix | peggyvm/assembler.go:384-409 | on the objects, does what the step function does on the items, and nothing while the label has not been emitted |
| Assembler.Assembler.ProcessItem | peggyvm/assembler.go:411-423 | one turn, and everything parked with the item goes on the queue |
| Assembler.Assembler.Process | peggyvm/assembler.go:425-436 | ends; keeps the invariant, exactness and dominance; progress lowers the work; without progress every item queued at the start is stuck |
| Assembler.Assembler.Force | peggyvm/assembler.go:274-295 | one iteration of the last-resort pass |
| Assembler.Assembler.Fix | peggyvm/assembler.go:261-309 | ends with every item fixed and placed at the length of what precedes it; the settled lengths are the greatest consistent ones; all branches land iff the pass was clean |
| Assembler.Assembler.Finish | peggyvm/assembler.go:226-259 | the code is the items' bytes end to end; the labels are the emitted ones, one entry each in list order, with visibility and the length of what precedes them, and are indexed by name; a clean pass over label-only offsets makes the program closed |
| Assembler.LabelsAscend | peggyvm/program.go:47-59 | labels come out in order of address, as the search for a label presumes |
| Assembler.LabelKept | peggyvm/assembler.go:244-256 | every label emitted comes out, at the length of what precedes it |
| Assembler.LabelsOnce | peggyvm/assembler.go:244-256 | and no label comes out twice |
| Layout.CodeIsEncoding | peggyvm/assembler.go:244-247 | the code of placed items is the encoding of their instructions, as long as their span |
| Layout.DecodesAtItem | peggyvm/assembler.go:244-247 | at the address of an instruction's item the decoder finds that instruction, as emitted but for its offset |
| Layout.LandingAddress | peggyvm/assembler.go:306-308 | a landing branch leads from its end address to its label's address |
| Layout.LandingIsClosed | peggyvm/assembler.go:226-259 | listings whose branches land and whose offsets are labels make closed programs |
| Layout.AssembledProgramsAreSafe | peggyvm/assembler.go:226-309 | such a program, run for any number of steps on any input, stays on boundaries, decodes everything it meets and never panics |
| Bitmaps.Match | byteset/dense.go:30-33 | the mask test is membership |
| Bitmaps.DenseSet | byteset/dense.go:13-22 | the bitmap holds exactly the given bytes |
| Bitmaps.ForEach | byteset/dense.go:35-45 | lists exactly the members, each once, ascending |
| Bitmaps.Invert | byteset/not.go:38-43 | the word-wise complement holds exactly the other bytes |
| RangeSets.Coalesce | byteset/range.go:88-169 | the result is non-empty ranges each ending before the next begins, holding the same bytes, with two neighbours in one range iff a given range held both |
| RangeSets.AdjacentStayApart | byteset/range.go:153-167 | two covered neighbouring bytes fall into different, adjacent ranges iff no given range held both |
| RangeSets.Match | byteset/range.go:42-51 | binary search finds a byte iff some range holds it |
| RangeSets.ForEach | byteset/range.go:53-59 | lists exactly the bytes covered, each once, ascending |
| RangeSets.AsDense | byteset/range.go:72-81 | the bitmap holds exactly the bytes covered |
| UnionMerge.Fill | byteset/util.go:58-71 | receiving on one channel keeps the merge invariant and adds exactly its first byte not seen before, or, if there is none, exhausts the channel and adds nothing |
| UnionMerge.EmitKeeps | byteset/util.go:75-78 | the smallest waiting byte is above everything emitted and below everything waiting or still to come |
| UnionMerge.ForEachUnion | byteset/util.go:39-80 | ends, having emitted exactly the bytes some member has, each once, strictly ascending |
| Matchers.MakeRanges | byteset/range.go:32-34 | the matcher made from any ranges, overlapping, empty or unordered, matches exactly the bytes they cover |
| Matchers.MakeDense | byteset/dense.go:13-22 | the matcher made from bytes matches exactly these |
| Matchers.Negate | byteset/not.go:11-13 | matches exactly the bytes the given matcher does not |
| Matchers.Match | byteset/interface.go:9-10 | for every kind of matcher, however nested and shared, matches exactly the bytes it stands for |
| Matchers.ForEach | byteset/interface.go:12-14 | lists exactly the bytes the matcher stands for, each once, ascending |
| Matchers.AsDense | byteset/interface.go:35-48 | the bitmap holds exactly the bytes the matcher stands for |
| Matchers.OptimizeDense | byteset/dense.go:47-64 | the matcher chosen by count matches the same bytes, and stays a bitmap only with two bytes or more and not all |
| Matchers.OptimizeNegation | byteset/not.go:31-46 | the negation of an optimized matcher becomes a matcher of the same bytes with nothing left to simplify |
| Matchers.Rewrite | byteset/not.go:30-30 | replacing the inner matcher by one of the same bytes leaves every matcher that shares the object as it was |
| Matchers.Optimize | byteset/interface.go:16-19 | the result matches the same bytes, and so, after the rewriting in place, does every matcher sharing a negation with it; it holds no union, intersection, double negation or set that is empty or full by listing |

## Left out

- Labels that are referred to but never emitted: relaxation leaves their branches alone (`TryFix`), but the last resort then indexes past the list and panics, and `Fix` and `Finish` ask for a complete listing.
- The Go type dispatch of operands in `EmitOp`: operands are 64-bit values or a label.
- The placeholder item `distance` appends when it measures from the last item: it is never measured.
- Opcodes of 64 and above in `OpMeta.Encode`: the table's codes have six bits.
- `Disassemble`, `FindLabel`, named captures and all formatting: text output.
- `Run` and `Match` where the loop never ends: only what its first n iterations do, for every n.
- Execution.Execution.RunFor: states nothing about whether the loop ends, because arbitrary programs may run forever.
- Error values carry their kind only, not the address and instruction they are reported with.
- Goroutines: each channel of the union merge has one writer and one reader.
