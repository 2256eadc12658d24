/**
 The interpreter object. The tape `_buffer` is an array the run updates in
 place; the program text, the head `pos` and the instruction pointer `i` are
 locals of the `Decode` coroutine that survive between its suspensions, so
 they are fields here. Step is one iteration of Decode's `for` loop, Run the
 loop itself for at most `fuel` iterations.
 */
module Engine {
  import opened Cells
  import opened Brackets
  import opened Semantics

  class Interpreter {
    const size: nat          // _bufferSize: the number of tape cells
    var code: seq<char>      // the program text read at the start of a run
    var tape: array<int>     // _buffer
    var pos: int             // the head
    var ip: int              // the instruction pointer `i`
    var output: seq<char>    // the text of _output
    var status: Status
    var ended: nat           // OnEndDecoding invocations during this run

    /** The run as a value. */
    ghost function State(): Session
      reads this, tape
    {
      Session(code, tape[..], pos, ip, output, status, ended)
    }

    ghost predicate Valid()
      reads this, tape
    {
      && size > 0
      && (status != Idle ==> tape.Length == size && Wf(State()))
    }

    /**
     A new interpreter: the field initialisers `_bufferSize` (line 10) and
     the empty `_buffer` (line 19). Awake's widgets are not modelled.
     */
    constructor (size: nat)
      requires size > 0
      ensures Valid() && this.size == size && status == Idle && ended == 0
    {
      this.size := size;
      code := [];
      tape := new int[0];
      pos := 0;
      ip := 0;
      output := [];
      status := Idle;
      ended := 0;
    }

    /**
     ErrorHandle (lines 131-135): record the error and its index, and invoke
     OnEndDecoding.
     */
    method ErrorHandle(kind: FaultKind, index: int)
      requires Valid() && status == Running
      modifies this
      ensures Valid() && tape == old(tape)
      ensures State() == Fault(old(State()), kind, index)
    {
      status := Faulted(kind, index);
      ended := ended + 1;
    }

    /**
     SetHeadPosition (lines 114-129): commit the new head position if it is
     on the tape; otherwise report Overflow (checked first) or Underflow.
     */
    method SetHeadPosition(p: int) returns (ok: bool)
      requires Valid() && status == Running
      modifies this
      ensures Valid() && tape == old(tape)
      ensures ok <==> 0 <= p < size
      ensures State() == MoveHead(old(State()), p)
    {
      if p >= size {
        ErrorHandle(Overflow, p);
        return false;
      } else if p < 0 {
        ErrorHandle(Underflow, p);
        return false;
      }
      pos := p;
      return true;
    }

    /**
     The reset at the start of the Decode coroutine (lines 47-57): a fresh
     tape of `size` zero cells, the head on cell 0, the banner as output, the
     first character next. The source's public StartDecode (lines 42-44)
     starts the whole coroutine, which is `Decode` below.
     */
    method Reset(program: seq<char>)
      requires Valid()
      modifies this
      ensures Valid() && fresh(tape)
      ensures State() == Start(program, size)
    {
      code := program;
      tape := new int[size](_ => 0);
      ip := 0;
      ended := 0;
      status := Running;
      output := Banner;
      pos := 0;
      var _ := SetHeadPosition(pos);  // cell 0 exists, so this cannot fail
    }

    /** The run is going on and the current character is `c`: AtInstruction of the object's state. */
    ghost predicate At(c: char)
      reads this, tape
    {
      AtInstruction(State(), c)
    }

    /** `>` and `<` (lines 61-68): move the head by `delta` through SetHeadPosition. */
    method MoveBy(delta: int)
      requires Valid() && ((At('>') && delta == 1) || (At('<') && delta == -1))
      modifies this
      ensures Valid() && tape == old(tape)
      ensures State() == StepSpec(old(State()))
    {
      var ok := SetHeadPosition(pos + delta);
      if ok {
        ip := ip + 1;
      }
    }

    /** `+` (lines 69-73): increment the current cell in place, modulo 256. */
    method Increment()
      requires Valid() && At('+')
      modifies this, tape
      ensures Valid() && tape == old(tape)
      ensures State() == StepSpec(old(State()))
    {
      ghost var s := State();
      tape[pos] := tape[pos] + 1;
      tape[pos] := tape[pos] % 256;
      ip := ip + 1;
      assert tape[..] == s.tape[s.pos := Inc(s.tape[s.pos])];
    }

    /** `-` (lines 74-78): decrement the current cell in place, wrapping 0 to 255. */
    method Decrement()
      requires Valid() && At('-')
      modifies this, tape
      ensures Valid() && tape == old(tape)
      ensures State() == StepSpec(old(State()))
    {
      ghost var s := State();
      tape[pos] := tape[pos] - 1;
      if tape[pos] < 0 {
        tape[pos] := tape[pos] + 256;
      }
      ip := ip + 1;
      assert tape[..] == s.tape[s.pos := Dec(s.tape[s.pos])];
    }

    /** `.` (lines 79-81): append the character whose code is the current cell. */
    method Write()
      requires Valid() && At('.')
      modifies this
      ensures Valid() && tape == old(tape)
      ensures State() == StepSpec(old(State()))
    {
      output := output + [tape[pos] as char];
      ip := ip + 1;
    }

    /** `[` (lines 82-92): on a zero cell, jump past the matching `]`. */
    method LoopOpen()
      requires Valid() && At('[')
      modifies this
      ensures Valid() && tape == old(tape)
      ensures State() == StepSpec(old(State()))
    {
      ghost var s := State();
      if tape[pos] == 0 {
        var r := ScanForward(code, ip);
        match r
        case None =>
          OpenUnmatched(s);
          ErrorHandle(Malformed, ip);
        case Some(close) =>
          OpenStep(s, close);
          ip := close + 1;
      } else {
        ip := ip + 1;
      }
    }

    /** `]` (lines 93-103): on a nonzero cell, jump back past the matching `[`. */
    method LoopClose()
      requires Valid() && At(']')
      modifies this
      ensures Valid() && tape == old(tape)
      ensures State() == StepSpec(old(State()))
    {
      ghost var s := State();
      if tape[pos] > 0 {
        var r := ScanBackward(code, ip);
        match r
        case None =>
          CloseUnmatched(s);
          ErrorHandle(Malformed, ip);
        case Some(open) =>
          CloseStep(s, open);
          ip := open + 1;
      } else {
        ip := ip + 1;
      }
    }

    /**
     One iteration of the dispatch loop (lines 57-105): complete the run past
     the last character, otherwise dispatch on the current character.
     */
    method Step()
      requires Valid() && status == Running
      modifies this, tape
      ensures Valid() && tape == old(tape) && status != Idle
      ensures State() == StepSpec(old(State()))
    {
      if ip == |code| {
        status := Completed;
        ended := ended + 1;
        return;
      }
      match code[ip]
      case '>' => MoveBy(1);
      case '<' => MoveBy(-1);
      case '+' => Increment();
      case '-' => Decrement();
      case '.' => Write();
      case '[' => LoopOpen();
      case ']' => LoopClose();
      case _ => ip := ip + 1;
    }

    /**
     The `for` loop of Decode (lines 57-105), for at most `fuel` iterations:
     it stops early when the run completes, faults or was cancelled.
     */
    method Run(fuel: nat)
      requires Valid() && status != Idle
      modifies this, tape
      ensures Valid() && tape == old(tape)
      ensures State() == RunSpec(old(State()), fuel)
    {
      var n := 0;
      while n < fuel && status == Running
        invariant tape == old(tape) && Valid() && status != Idle
        invariant 0 <= n <= fuel
        invariant RunSpec(State(), fuel - n) == RunSpec(old(State()), fuel)
      {
        ghost var before := State();
        Step();
        RunStep(before, fuel - n);
        n := n + 1;
      }
      if status != Running {
        Stopped(State(), fuel - n);
      }
    }

    /** The Decode coroutine that StartDecode (lines 42-44) starts: Reset followed by its loop, a whole run bounded by `fuel`. */
    method Decode(program: seq<char>, fuel: nat)
      requires Valid()
      modifies this
      ensures Valid() && fresh(tape)
      ensures State() == RunSpec(Start(program, size), fuel)
    {
      Reset(program);
      Run(fuel);
    }

    /**
     StopDecoding (lines 137-141): a running session is cancelled, and
     OnEndDecoding is invoked whether or not a run was going on.
     */
    method StopDecoding()
      requires Valid()
      modifies this
      ensures Valid() && tape == old(tape)
      ensures State() == Cancel(old(State()))
    {
      if status == Running {
        status := Cancelled;
      }
      ended := ended + 1;
    }
  }
}
