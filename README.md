# Brainfuck interpreter engine, modelled in Dafny

This project models the Brainfuck engine of a Unity application: the
`Interpreter` component (`Assets/Interpreter.cs`). Its `Decode` coroutine
runs the program text over a tape of `_bufferSize` integer cells:

- `>` and `<` move the head through `SetHeadPosition`, which stops the run
  with an overflow or underflow error when the head would leave the tape;
- `+` and `-` change the current cell modulo 256;
- `.` appends the current cell as a character to an output text that starts
  as `"Output: "`;
- `[` and `]` jump past the matching bracket, found by a linear scan with a
  nesting counter at the moment the jump is taken.

The files:

- `cells.dfy` (module `Cells`): cell arithmetic and its wrap-around.
- `brackets.dfy` (module `Brackets`): the bracket depth of a piece of
  program text, the matching relation, balanced programs, and the two scans
  as recursive functions (`MatchForward`, `MatchBackward`) and as the
  source's `while` loops (`ScanForward`, `ScanBackward`). Each scan is
  proved to land on the matching bracket, and to fail exactly when there is
  none.
- `semantics.dfy` (module `Semantics`): the run as a value (`Session`) and
  one iteration of the dispatch loop as a function (`StepSpec`). `RunSpec`
  is the loop for a given number of iterations. The effect of each
  instruction is stated as a lemma.
- `engine.dfy` (module `Engine`): the `Interpreter` class. Its tape is an
  `array<int>` updated in place. Every method is proved to move the object
  from `State()` to the state the functions of `Semantics` give.
- `programs.dfy` (module `Programs`): whole runs of small programs:
  - the clearing loop `[-]` on any cell value;
  - the same loop nested k deep, `[`^k `-` `]`^k, on any cell value;
  - `++.`;
  - `+[-]`;
  - `+++[>+++<-]>.`, which multiplies 3 by 3.

A run that the source would never finish is modelled with a `fuel` bound on
the number of loop iterations.

## Model

| member | source | states |
|---|---|---|
| Cells.Inc | Assets/Interpreter.cs:69-72 | `+` keeps a cell in [0, 255], adds one below 255 and wraps 255 to 0 |
| Cells.Dec | Assets/Interpreter.cs:74-77 | `-` keeps a cell in [0, 255], subtracts one above 0 and wraps 0 to 255 |
| Cells.IncDecInverse | Assets/Interpreter.cs:69-77 | `+` and `-` undo each other on every cell value |
| Cells.IncNAdds | Assets/Interpreter.cs:69-72 | n consecutive `+` add n modulo 256 |
| Cells.DecNSubtracts | Assets/Interpreter.cs:74-77 | n consecutive `-` subtract n modulo 256 |
| Cells.FullTurn | Assets/Interpreter.cs:69-77 | any multiple of 256 increments, or of 256 decrements, gives the cell back unchanged |
| Brackets.MatchDirections | Assets/Interpreter.cs:82-103 | the pairs found by scanning forward from `[` are exactly the pairs found by scanning backward from `]` |
| Brackets.MatchCloseUnique | Assets/Interpreter.cs:84-90 | a `[` has at most one matching `]` |
| Brackets.MatchOpenUnique | Assets/Interpreter.cs:95-101 | a `]` has at most one matching `[` |
| Brackets.BalancedHasClose | Assets/Interpreter.cs:84-90 | in a balanced program every `[` has a matching `]` |
| Brackets.BalancedHasOpen | Assets/Interpreter.cs:95-101 | in a balanced program every `]` has a matching `[` |
| Brackets.MatchForward | Assets/Interpreter.cs:84-90 | the forward scan stops only on a `]` at or after where it started |
| Brackets.MatchBackward | Assets/Interpreter.cs:95-101 | the backward scan stops only on a `[` at or before where it started |
| Brackets.MatchForwardFinds | Assets/Interpreter.cs:86-90 | the scan resumed in the middle, with the counter agreeing with the text read so far, finds the matching `]`, and finds nothing exactly when there is none |
| Brackets.ForwardMatch | Assets/Interpreter.cs:84-90 | from a `[`, the scan lands on its matching `]`, and runs off the end exactly when there is none |
| Brackets.MatchBackwardFinds | Assets/Interpreter.cs:97-101 | the backward scan resumed in the middle finds the matching `[`, and finds nothing exactly when there is none |
| Brackets.BackwardMatch | Assets/Interpreter.cs:95-101 | from a `]`, the scan lands on its matching `[`, and runs off the start exactly when there is none |
| Brackets.ScanForward | Assets/Interpreter.cs:84-90 | the `while` loop with counter `nRB` computes MatchForward: it returns the matching `]` when one exists, and None exactly when none does |
| Brackets.ScanBackward | Assets/Interpreter.cs:95-101 | the `while` loop with counter `nLB` computes MatchBackward: it returns the matching `[` when one exists, and None exactly when none does |
| Semantics.Start | Assets/Interpreter.cs:49-57 | a run starts with `_bufferSize` zero cells, head 0, instruction pointer 0 and output `"Output: "`, in a well-formed running state |
| Semantics.HeadCheck | Assets/Interpreter.cs:118-128 | a head position passes exactly when it is in [0, size); overflow exactly at or past the size, underflow exactly below 0 |
| Semantics.Fault | Assets/Interpreter.cs:131-135 | ErrorHandle: the status becomes the fault with its kind and index and OnEndDecoding fires once more; tape, head, output and program are kept, so the run stays well formed and its lifecycle moves from running to ended once |
| Semantics.Cancel | Assets/Interpreter.cs:137-141 | StopDecoding: the session is no longer running and OnEndDecoding fires once more, whether or not a run was going on; a stopped status is kept; tape, head, output and program are kept |
| Semantics.MoveHead | Assets/Interpreter.cs:61-68 | the head moves to p when p is on the tape; at or past the size the run faults with Overflow at p, below 0 with Underflow at p (lines 118-127); the run stays well formed |
| Semantics.ExecKeeps | Assets/Interpreter.cs:59-104 | the switch on the current character keeps the run well formed, the program and the tape length; it either keeps the status or faults, firing OnEndDecoding; only `.` touches the output |
| Semantics.StepSpec | Assets/Interpreter.cs:57-105 | one iteration keeps the run well formed (head on the tape, cells bytes, instruction pointer within the program or just past it, banner kept), the program and the tape length |
| Semantics.RunSpec | Assets/Interpreter.cs:57-106 | any number of iterations keeps the run well formed, the program and the tape length |
| Semantics.CellStep | Assets/Interpreter.cs:69-78 | `+` and `-` change only the current cell, to its value plus or minus one with wrap-around, and advance the instruction pointer |
| Semantics.HeadStep | Assets/Interpreter.cs:61-68 | `>` and `<` succeed exactly when the new head is on the tape; otherwise the run faults with Overflow or Underflow and the requested index, OnEndDecoding fires, and nothing else changes |
| Semantics.OutputStep | Assets/Interpreter.cs:79-80 | `.` appends exactly one character, whose code is the current cell; every other step leaves the output alone |
| Semantics.OpenStep | Assets/Interpreter.cs:82-92 | `[` on a zero cell resumes right after its matching `]`, and falls through on a nonzero cell whether or not a matching `]` exists |
| Semantics.CloseStep | Assets/Interpreter.cs:93-103 | `]` on a nonzero cell resumes right after its matching `[`, and falls through on a zero cell whether or not a matching `[` exists |
| Semantics.OpenUnmatched | Assets/Interpreter.cs:82-92 | `[` on a zero cell without a matching `]` ends the run with the Malformed fault at the bracket, and OnEndDecoding fires |
| Semantics.CloseUnmatched | Assets/Interpreter.cs:93-103 | `]` on a nonzero cell without a matching `[` ends the run with the Malformed fault at the bracket, and OnEndDecoding fires |
| Semantics.OtherStep | Assets/Interpreter.cs:59-60 | a character outside the eight instructions only advances the instruction pointer |
| Semantics.Stopped | Assets/Interpreter.cs:63-67 | after a fault (or completion or cancellation) no further instruction changes anything |
| Semantics.CancelFreezes | Assets/Interpreter.cs:137-141 | StopDecoding during a run ends it, fires OnEndDecoding once, keeps tape and output, and no further iteration changes anything |
| Semantics.RunSplit | Assets/Interpreter.cs:57-105 | running a iterations and then b iterations is running a + b iterations |
| Semantics.OutputGrows | Assets/Interpreter.cs:56-80 | the output only grows during a run and keeps everything written before, banner included |
| Semantics.EndedOnce | Assets/Interpreter.cs:60-106 | OnEndDecoding never fires while running, and exactly once once the run completed or faulted |
| Semantics.BalancedStep | Assets/Interpreter.cs:82-103 | in a balanced program no single iteration faults as Malformed |
| Semantics.BalancedNeverMalformed | Assets/Interpreter.cs:82-103 | a balanced program never reaches the Malformed fault, however long it runs |
| Engine.Interpreter.constructor | Assets/Interpreter.cs:10-19 | a new interpreter has the given tape size and no run |
| Engine.Interpreter.ErrorHandle | Assets/Interpreter.cs:131-135 | the run faults with the given kind and index, OnEndDecoding fires, the tape is untouched |
| Engine.Interpreter.SetHeadPosition | Assets/Interpreter.cs:114-129 | returns true exactly when the position is on the tape; the new state is MoveHead of the old one (head committed, or the fault recorded) |
| Engine.Interpreter.Reset | Assets/Interpreter.cs:47-57 | the object holds a fresh tape and exactly the state Start gives |
| Engine.Interpreter.MoveBy | Assets/Interpreter.cs:61-68 | `>`/`<` take the object to StepSpec of its old state |
| Engine.Interpreter.Increment | Assets/Interpreter.cs:69-73 | `+` updates the tape array in place and takes the object to StepSpec of its old state |
| Engine.Interpreter.Decrement | Assets/Interpreter.cs:74-78 | `-` updates the tape array in place and takes the object to StepSpec of its old state |
| Engine.Interpreter.Write | Assets/Interpreter.cs:79-81 | `.` takes the object to StepSpec of its old state |
| Engine.Interpreter.LoopOpen | Assets/Interpreter.cs:82-92 | `[` runs the forward scan and takes the object to StepSpec of its old state |
| Engine.Interpreter.LoopClose | Assets/Interpreter.cs:93-103 | `]` runs the backward scan and takes the object to StepSpec of its old state |
| Engine.Interpreter.Step | Assets/Interpreter.cs:57-105 | one iteration of the dispatch loop takes the object to StepSpec of its old state, which is never Idle again |
| Engine.Interpreter.Run | Assets/Interpreter.cs:57-105 | the loop, for at most `fuel` iterations, takes the object to RunSpec of its old state |
| Engine.Interpreter.Decode | Assets/Interpreter.cs:46-107 | a whole run leaves the object in RunSpec of Start, on a fresh tape |
| Engine.Interpreter.StopDecoding | Assets/Interpreter.cs:137-141 | the object goes to Cancel of its old state |
| Programs.InnermostMatch | Assets/Interpreter.cs:84-90 | a `[` and the first `]` after it, with no bracket between, match |
| Programs.DrainRound | Assets/Interpreter.cs:74-103 | one round of `-]` lowers the cell by one and goes back into the loop body, or past the loop when the cell reaches 0 |
| Programs.DrainLoop | Assets/Interpreter.cs:74-103 | the body `-]` entered with the cell at c > 0 runs 2c steps and leaves the loop with the cell at 0 |
| Programs.ClearLoop | Assets/Interpreter.cs:74-103 | `[-]` on a cell holding n takes 2n + 1 steps, leaves the cell at 0 and changes nothing else |
| Programs.NestedClearText | Assets/Interpreter.cs:82-103 | the text of k opening brackets, one `-` and k closing brackets, placed at the instruction pointer, is the clear loop nested k deep |
| Programs.NestedOuterMatch | Assets/Interpreter.cs:82-103 | the outermost `[` and `]` of the clear loop nested k deep match each other |
| Programs.MatchWrap | Assets/Interpreter.cs:82-103 | a `[` just before and a `]` just after a matching pair of brackets match each other |
| Programs.NestedOpenStep | Assets/Interpreter.cs:82-92 | an opening bracket of the nested clear loop on a nonzero cell steps into the loop |
| Programs.NestedCloseStep | Assets/Interpreter.cs:93-103 | a closing bracket of the nested clear loop on a zero cell steps past it |
| Programs.NestedClearDeeper | Assets/Interpreter.cs:74-103 | the clear loop nested k >= 2 deep on a cell holding c > 0 takes 2k + 2c - 1 iterations, ends just past its last `]` with the cell at 0 and changes nothing else |
| Programs.NestedClearLoop | Assets/Interpreter.cs:74-103 | the clear loop nested k deep on a cell holding c ends just past its last `]` with the cell at 0 and nothing else changed, in 1 iteration when c is 0 and in 2k + 2c - 1 iterations otherwise |
| Programs.NestedClearRun | Assets/Interpreter.cs:74-103 | the text `[`^k `-` `]`^k at the instruction pointer, on a cell holding c, ends just past the last `]` with the cell at 0 and nothing else changed, in 1 iteration when c is 0 and 2k + 2c - 1 otherwise |
| Programs.PlusPlusDot | Assets/Interpreter.cs:46-106 | `++.` completes in four iterations with cell 0 at 2 and writes the character with code 2 after the banner |
| Programs.IncrementThenClear | Assets/Interpreter.cs:46-106 | `+[-]` completes in five iterations with an all-zero tape and nothing written |
| Programs.MultiplyPrologue | Assets/Interpreter.cs:69-92 | `+++[` sets cell 0 to 3 and enters the loop |
| Programs.MultiplyAddThree | Assets/Interpreter.cs:61-73 | `>+++<` adds 3 to cell 1 and comes back to cell 0 |
| Programs.MultiplyCountDown | Assets/Interpreter.cs:74-103 | `-]` counts cell 0 down and jumps back into the loop while it is not 0 |
| Programs.MultiplyRound | Assets/Interpreter.cs:61-103 | one round of the loop of `+++[>+++<-]>.` takes seven iterations |
| Programs.MultiplyLoop | Assets/Interpreter.cs:61-103 | k rounds leave cell 0 at 0 and add 3k to cell 1 |
| Programs.MultiplyEpilogue | Assets/Interpreter.cs:61-81 | `>.` after the loop writes cell 1 and completes the run |
| Programs.MultiplyRun | Assets/Interpreter.cs:46-106 | `+++[>+++<-]>.` completes in 28 iterations, with 9 in cell 1 and the character with code 9 written |

## Left out

- Unity presentation is not modelled: the cell widgets (lines 25-31, 49-51, 109-112), the head's screen position (lines 116-117) and the input and output text fields. The program text is an input `seq<char>` and the output text a `seq<char>`.
- Line 116 reads `_memoryCells[pos]` before the bounds check of line 118, so at run time an off-tape head would raise an exception in the widget lookup first. The model takes the evident intent of lines 118-127: the Overflow or Underflow fault.
- Timing and coroutines are not modelled: the delay of line 58, `Start` and `SetStartHeadPosition` (lines 33-40) and `StartCoroutine`. Two Decode coroutines started at once are not modelled either; a run is a sequence of steps on one object.
- StopDecoding's `StopAllCoroutines` is modelled as the Cancelled status, checked between iterations. It takes effect only between two iterations. The model also lets a Running state whose instruction pointer is past the last character be cancelled, before the step that completes the run; in the source the only suspension is the `yield` of line 58 inside the loop body, so there is none between the last character and line 106 (and none at all when `_delaySeconds <= 0`), and stopping there gives Completed and a second OnEndDecoding.
- `OnStartDeconding`, `OnEndDecoding` and `Debug.LogError` are foreign calls. Only the number of OnEndDecoding invocations is kept (`ended`), and of an error only its kind and index, not the message text.
- Engine.Interpreter.Reset writes the banner before it places the head on cell 0; the source does these in the other order (lines 55-56). Placing the head on cell 0 of a nonempty tape cannot fail, so the resulting state is the same.
- A tape of size 0 is not modelled: the constructor requires `size > 0`. The source's default is 30. With size 0, Decode discards the result of SetHeadPosition at line 55, so under the check of lines 118-127 ErrorHandle would fire and the run would still go on into the loop; at run time line 116 throws first.
- After an Overflow or Underflow fault the model keeps the head on the last cell it was on; the source's local `pos` has moved off the tape, but the run is over and the value is never read again.
- A bracket scan that runs off the program (a `[` on a zero cell or a `]` on a nonzero cell, without a match) ends the run with a Malformed fault at the bracket, and OnEndDecoding fires. In the source that scan raises an index exception at lines 86 and 97, and that exception is not modelled. An unmatched bracket whose jump is not taken falls through, in the source and in the model.
- The program text is a sequence of Unicode characters. C# indexes a string by UTF-16 code units (lines 53 and 59), so a character outside the Basic Multilingual Plane takes two loop iterations in the source and one in the model. Instruction pointer values and iteration counts then differ; tape, output and status do not.
- Termination of whole programs is not modelled: runs are bounded by a fuel count of loop iterations.
- Semantics.RunSpec: iterations after the run has stopped are counted but change nothing (Semantics.Stopped), instead of the loop being left early.
- Cell values are unbounded integers that the invariant keeps in [0, 255]; C#'s 32-bit `int` never overflows here because every cell stays a byte.
