/**
 The execution session of the interpreter as a value, and the effect of one
 iteration of the dispatch loop of `Decode` (Interpreter.cs lines 57-105) as
 a function on it. The class in module Engine runs the same loop imperatively
 and is proved against these functions.
 */
module Semantics {
  import opened Cells
  import opened Brackets

  /** Why a run stopped early: the two head checks of SetHeadPosition, and an unbalanced bracket. */
  datatype FaultKind = Overflow | Underflow | Malformed

  datatype Status =
    | Idle                                 // no run started yet
    | Running
    | Completed                            // the loop ran past the last character
    | Cancelled                            // StopDecoding during a run
    | Faulted(kind: FaultKind, index: int) // the error and the offending index

  /**
   One run: the program text, the tape `_buffer`, the head `pos`, the
   instruction pointer `i`, the text of `_output`, the status, and how many
   times OnEndDecoding has been invoked during the run.
   */
  datatype Session = Session(
    code: seq<char>,
    tape: seq<int>,
    pos: int,
    ip: int,
    output: seq<char>,
    status: Status,
    ended: nat)

  /** The output text every run starts with (line 56). */
  const Banner: seq<char> := "Output: "

  /**
   The invariant of a run: a nonempty tape whose cells are bytes, a head on
   the tape, an instruction pointer within the program or just past it, and
   an output that still starts with the banner.
   */
  ghost predicate Wf(s: Session)
  {
    && |s.tape| > 0
    && 0 <= s.pos < |s.tape|
    && (forall k :: 0 <= k < |s.tape| ==> IsCell(s.tape[k]))
    && 0 <= s.ip <= |s.code|
    && Banner <= s.output
  }

  /**
   OnEndDecoding is invoked once per run: never while it is running, exactly
   once after it completed or faulted.
   */
  ghost predicate Lifecycle(s: Session)
  {
    || (s.status == Running && s.ended == 0)
    || ((s.status == Completed || s.status.Faulted?) && s.ended == 1)
  }

  /** The reset at the start of `Decode` (lines 47-57). */
  function Start(code: seq<char>, size: nat): (s: Session)
    requires size > 0
    ensures Wf(s) && Lifecycle(s) && |s.tape| == size
  {
    Session(code, seq(size, _ => 0), 0, 0, Banner, Running, 0)
  }

  /**
   The bounds test of SetHeadPosition (lines 118-127): None when the new
   head position is on the tape, otherwise which bound it crosses.
   */
  function HeadCheck(p: int, size: int): (r: Option<FaultKind>)
    ensures r.None? <==> 0 <= p < size
    ensures r == Some(Overflow) <==> p >= size
    ensures r == Some(Underflow) <==> size > p && p < 0
  {
    if p >= size then Some(Overflow)
    else if p < 0 then Some(Underflow)
    else None
  }

  /** ErrorHandle (lines 131-135): the run stops with the error and OnEndDecoding fires. */
  function Fault(s: Session, kind: FaultKind, index: int): (t: Session)
    ensures t.status == Faulted(kind, index) && t.ended == s.ended + 1
    ensures t.tape == s.tape && t.pos == s.pos && t.output == s.output && t.code == s.code
    ensures Wf(s) ==> Wf(t)
    ensures s.status == Running && Lifecycle(s) ==> Lifecycle(t)
  {
    s.(status := Faulted(kind, index), ended := s.ended + 1)
  }

  /** StopDecoding (lines 137-141): a running session is cancelled, and OnEndDecoding fires in any case. */
  function Cancel(s: Session): (t: Session)
    ensures t.status != Running && t.ended == s.ended + 1
    ensures s.status != Running ==> t.status == s.status
    ensures t.tape == s.tape && t.pos == s.pos && t.output == s.output && t.code == s.code
    ensures Wf(s) ==> Wf(t)
  {
    s.(status := if s.status == Running then Cancelled else s.status, ended := s.ended + 1)
  }

  /** `>` and `<` (lines 61-68): move the head to `p`, or fault if `p` is off the tape. */
  function MoveHead(s: Session, p: int): (t: Session)
    ensures 0 <= p < |s.tape| ==> t == s.(pos := p)
    ensures p >= |s.tape| ==> t == Fault(s, Overflow, p)
    ensures p < 0 ==> t == Fault(s, Underflow, p)
    ensures Wf(s) ==> Wf(t)
  {
    match HeadCheck(p, |s.tape|)
    case None => s.(pos := p)
    case Some(kind) => Fault(s, kind, p)
  }

  /**
   The switch on the current character (lines 59-104). A taken jump leaves
   the instruction pointer ON the matching bracket; the loop increment moves
   past it. A scan that runs off the program (a `[` on a zero cell or a `]`
   on a nonzero cell, without a match) faults as Malformed at the bracket;
   an unmatched bracket whose jump is not taken falls through.
   */
  ghost function Exec(s: Session): Session
    requires Wf(s) && s.ip < |s.code|
  {
    var v := s.tape[s.pos];
    match s.code[s.ip]
    case '>' => MoveHead(s, s.pos + 1)
    case '<' => MoveHead(s, s.pos - 1)
    case '+' => s.(tape := s.tape[s.pos := Inc(v)])
    case '-' => s.(tape := s.tape[s.pos := Dec(v)])
    case '.' => s.(output := s.output + [v as char])
    case '[' =>
      if v != 0 then s
      else (match MatchForward(s.code, s.ip + 1, 0)
        case Some(close) => s.(ip := close)
        case None => Fault(s, Malformed, s.ip))
    case ']' =>
      if v <= 0 then s
      else (match MatchBackward(s.code, s.ip - 1, 0)
        case Some(open) => s.(ip := open)
        case None => Fault(s, Malformed, s.ip))
    case _ => s
  }

  /**
   Every branch of the switch keeps the run well formed, the program and the
   tape length; it either keeps the status or faults, which ends the run
   once; only `.` touches the output.
   */
  lemma ExecKeeps(s: Session)
    requires Wf(s) && s.ip < |s.code|
    ensures var t := Exec(s);
      && Wf(t) && t.code == s.code && |t.tape| == |s.tape|
      && (t.status == s.status || (t.status.Faulted? && t.ended == s.ended + 1))
      && (s.code[s.ip] != '.' ==> t.output == s.output)
  {
  }

  /**
   One iteration of the `for` loop of `Decode` (lines 57-105): past the last
   character the run completes and OnEndDecoding fires (line 106); otherwise
   the current character is executed and, unless the run faulted (the
   `yield break` of lines 63 and 67), the instruction pointer advances.
   The step keeps the invariant of the run and its tape length.
   */
  ghost function StepSpec(s: Session): (t: Session)
    requires Wf(s)
    ensures Wf(t) && t.code == s.code && |t.tape| == |s.tape|
  {
    if s.status != Running then s
    else if s.ip == |s.code| then s.(status := Completed, ended := s.ended + 1)
    else
      var t := Exec(s);
      if t.status == Running then t.(ip := t.ip + 1) else t
  }

  /**
   `fuel` iterations of the loop. An iteration of a run that has stopped
   changes nothing (lemma Stopped), so this is the loop left early on
   completion, a fault or cancellation.
   */
  ghost function RunSpec(s: Session, fuel: nat): (t: Session)
    requires Wf(s)
    ensures Wf(t) && t.code == s.code && |t.tape| == |s.tape|
    decreases fuel
  {
    if fuel == 0 then s else RunSpec(StepSpec(s), fuel - 1)
  }

  ghost predicate AtInstruction(s: Session, c: char)
  {
    s.status == Running && 0 <= s.ip < |s.code| && s.code[s.ip] == c
  }

  /**
   `+` and `-` (lines 69-78): the current cell stays a byte, wraps at the
   ends, and nothing but that cell and the instruction pointer changes.
   */
  lemma CellStep(s: Session)
    requires Wf(s) && (AtInstruction(s, '+') || AtInstruction(s, '-'))
    ensures var t := StepSpec(s);
      && IsCell(t.tape[s.pos])
      && (s.code[s.ip] == '+' ==> t.tape[s.pos] == (s.tape[s.pos] + 1) % 256)
      && (s.code[s.ip] == '-' ==> t.tape[s.pos] == if s.tape[s.pos] == 0 then 255 else s.tape[s.pos] - 1)
      && (forall k :: 0 <= k < |s.tape| && k != s.pos ==> t.tape[k] == s.tape[k])
      && t == s.(tape := t.tape, ip := s.ip + 1)
  {
  }

  /**
   `>` and `<` (lines 61-68, 118-127): the move succeeds exactly when the new
   head is on the tape; otherwise the run faults with Overflow at or past the
   upper bound and Underflow below 0, reporting the requested index, and
   nothing else changes.
   */
  lemma HeadStep(s: Session)
    requires Wf(s) && (AtInstruction(s, '>') || AtInstruction(s, '<'))
    ensures var p := if s.code[s.ip] == '>' then s.pos + 1 else s.pos - 1;
      var t := StepSpec(s);
      && (t.status == Running <==> 0 <= p < |s.tape|)
      && (t.status == Running ==> t == s.(pos := p, ip := s.ip + 1))
      && (p >= |s.tape| ==> t == s.(status := Faulted(Overflow, p), ended := s.ended + 1))
      && (p < 0 ==> t == s.(status := Faulted(Underflow, p), ended := s.ended + 1))
  {
  }

  /**
   `.` (lines 79-80) appends exactly one character, whose code is the current
   cell; every other step leaves the output alone.
   */
  lemma OutputStep(s: Session)
    requires Wf(s) && s.status == Running
    ensures var t := StepSpec(s);
      if AtInstruction(s, '.') then
        t == s.(output := s.output + [s.tape[s.pos] as char], ip := s.ip + 1)
        && t.output[|s.output|] as int == s.tape[s.pos]
      else t.output == s.output
  {
  }

  /**
   `[` on a zero cell (lines 82-92) resumes right after its matching `]`; on
   a nonzero cell it falls through to the next character, whether or not a
   matching `]` exists, since no scan runs.
   */
  lemma OpenStep(s: Session, close: int)
    requires Wf(s) && AtInstruction(s, '[')
    requires s.tape[s.pos] == 0 ==> Matches(s.code, s.ip, close)
    ensures StepSpec(s) == if s.tape[s.pos] == 0 then s.(ip := close + 1) else s.(ip := s.ip + 1)
  {
    if s.tape[s.pos] == 0 {
      ForwardMatch(s.code, s.ip);
      var r := MatchForward(s.code, s.ip + 1, 0);
      if r.Some? {
        MatchCloseUnique(s.code, s.ip, r.value, close);
      }
    }
  }

  /**
   `]` on a nonzero cell (lines 93-103) resumes right after its matching
   `[`; on a zero cell it falls through, whether or not a matching `[`
   exists, since no scan runs.
   */
  lemma CloseStep(s: Session, open: int)
    requires Wf(s) && AtInstruction(s, ']')
    requires s.tape[s.pos] != 0 ==> Matches(s.code, open, s.ip)
    ensures StepSpec(s) == if s.tape[s.pos] != 0 then s.(ip := open + 1) else s.(ip := s.ip + 1)
  {
    if s.tape[s.pos] != 0 {
      BackwardMatch(s.code, s.ip);
      var r := MatchBackward(s.code, s.ip - 1, 0);
      if r.Some? {
        MatchOpenUnique(s.code, r.value, open, s.ip);
      }
    }
  }

  /**
   `[` on a zero cell without a matching `]` (the scan of lines 84-90 runs
   off the end of the program): the run faults as Malformed at the bracket.
   */
  lemma OpenUnmatched(s: Session)
    requires Wf(s) && AtInstruction(s, '[') && !HasClose(s.code, s.ip) && s.tape[s.pos] == 0
    ensures StepSpec(s) == Fault(s, Malformed, s.ip)
  {
    ForwardMatch(s.code, s.ip);
  }

  /**
   `]` on a nonzero cell without a matching `[` (the scan of lines 95-101
   runs off the start of the program): the run faults as Malformed at the
   bracket.
   */
  lemma CloseUnmatched(s: Session)
    requires Wf(s) && AtInstruction(s, ']') && !HasOpen(s.code, s.ip) && s.tape[s.pos] != 0
    ensures StepSpec(s) == Fault(s, Malformed, s.ip)
  {
    BackwardMatch(s.code, s.ip);
  }

  /** A character outside the eight instructions (the switch has no default) only advances the instruction pointer. */
  lemma OtherStep(s: Session)
    requires Wf(s) && s.status == Running && s.ip < |s.code|
    requires s.code[s.ip] !in "><+-.[]"
    ensures StepSpec(s) == s.(ip := s.ip + 1)
  {
  }

  /** A run that stopped (completed, faulted, cancelled) executes nothing more. */
  lemma {:induction false} Stopped(s: Session, fuel: nat)
    requires Wf(s) && s.status != Running
    ensures RunSpec(s, fuel) == s
    decreases fuel
  {
    if fuel > 0 {
      Stopped(s, fuel - 1);
    }
  }

  /**
   StopDecoding during a run ends it: OnEndDecoding fires once, the tape and
   the output stay as they were, and no further step changes anything.
   */
  lemma CancelFreezes(s: Session, fuel: nat)
    requires Wf(s) && Lifecycle(s) && s.status == Running
    ensures var c := Cancel(s);
      && Wf(c) && c.status == Cancelled && c.ended == 1
      && c.tape == s.tape && c.output == s.output
      && RunSpec(c, fuel) == c
  {
  }

  /** One iteration of a running session, taken off the front of a run. */
  lemma RunStep(s: Session, fuel: nat)
    requires Wf(s) && s.status == Running && fuel > 0
    ensures RunSpec(s, fuel) == RunSpec(StepSpec(s), fuel - 1)
  {
  }

  /** Running `a` then `b` iterations is running `a + b`. */
  lemma {:induction false} RunSplit(s: Session, a: nat, b: nat)
    requires Wf(s)
    ensures RunSpec(s, a + b) == RunSpec(RunSpec(s, a), b)
    decreases a
  {
    if a > 0 {
      RunSplit(StepSpec(s), a - 1, b);
    }
  }

  /** The output only grows during a run: it keeps what was written so far, banner included. */
  lemma {:induction false} OutputGrows(s: Session, fuel: nat)
    requires Wf(s)
    ensures s.output <= RunSpec(s, fuel).output
    decreases fuel
  {
    if fuel > 0 {
      if s.status == Running {
        OutputStep(s);
      }
      OutputGrows(StepSpec(s), fuel - 1);
    }
  }

  /** OnEndDecoding fires once per run, whether it completes or faults. */
  lemma {:induction false} EndedOnce(s: Session, fuel: nat)
    requires Wf(s) && Lifecycle(s)
    ensures Lifecycle(RunSpec(s, fuel))
    decreases fuel
  {
    if fuel > 0 {
      EndedOnce(StepSpec(s), fuel - 1);
    }
  }

  ghost predicate NotMalformed(s: Session)
  {
    !(s.status.Faulted? && s.status.kind == Malformed)
  }

  /** In a balanced program no single step reaches the Malformed fault. */
  lemma BalancedStep(s: Session)
    requires Wf(s) && Balanced(s.code) && NotMalformed(s)
    ensures NotMalformed(StepSpec(s))
  {
    if s.status == Running && s.ip < |s.code| {
      var c := s.code[s.ip];
      if c == '[' {
        BalancedHasClose(s.code, s.ip);
        var close :| Matches(s.code, s.ip, close);
        OpenStep(s, close);
      } else if c == ']' {
        BalancedHasOpen(s.code, s.ip);
        var open :| Matches(s.code, open, s.ip);
        CloseStep(s, open);
      } else if c == '>' || c == '<' {
        HeadStep(s);
      } else if c == '+' || c == '-' {
        CellStep(s);
      } else if c == '.' {
        OutputStep(s);
      } else {
        OtherStep(s);
      }
    }
  }

  /** A balanced program never reaches the Malformed fault. */
  lemma {:induction false} BalancedNeverMalformed(s: Session, fuel: nat)
    requires Wf(s) && Balanced(s.code) && NotMalformed(s)
    ensures NotMalformed(RunSpec(s, fuel))
    decreases fuel
  {
    if fuel > 0 {
      BalancedStep(s);
      BalancedNeverMalformed(StepSpec(s), fuel - 1);
    }
  }
}
