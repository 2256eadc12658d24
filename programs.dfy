/**
 Whole runs of small programs: the loop `[-]` that clears a cell, the same
 loop nested k deep, and three complete programs from start to completion.
 */
module Programs {
  import opened Brackets
  import opened Semantics

  /** Every prefix of an innermost loop, bracket included, is open by exactly one level. */
  lemma {:induction false} InnermostPrefix(code: seq<char>, open: int, m: int)
    requires 0 <= open < m <= |code| && code[open] == '['
    requires forall k :: open < k < m ==> Delta(code[k]) == 0
    ensures Net(code[open..m]) == 1
    decreases m
  {
    NetExtendRight(code, open, m - 1);
    if m - 1 == open {
      assert code[open..open] == [];
    } else {
      InnermostPrefix(code, open, m - 1);
    }
  }

  /** A `[` and the first `]` after it, with no bracket in between, match. */
  lemma InnermostMatch(code: seq<char>, open: int, close: int)
    requires 0 <= open < close < |code| && code[open] == '[' && code[close] == ']'
    requires forall k :: open < k < close ==> Delta(code[k]) == 0
    ensures Matches(code, open, close)
  {
    forall m | open < m <= close
      ensures Net(code[open..m]) == 1
    {
      InnermostPrefix(code, open, m);
    }
    NetExtendRight(code, open, close);
  }

  ghost predicate ClearLoopAt(code: seq<char>, open: int)
  {
    0 <= open && open + 3 <= |code| && code[open] == '[' && code[open + 1] == '-' && code[open + 2] == ']'
  }

  /** One round of `[-]` from its body: `-` then `]`, back into the body or out of the loop. */
  lemma DrainRound(s: Session, open: int, c: int, n: nat)
    requires Wf(s) && s.status == Running && ClearLoopAt(s.code, open)
    requires s.ip == open + 1 && s.tape[s.pos] == c > 0
    ensures var next := s.(tape := s.tape[s.pos := c - 1], ip := if c > 1 then open + 1 else open + 3);
      Wf(next) && RunSpec(s, n + 2) == RunSpec(next, n)
  {
    InnermostMatch(s.code, open, open + 2);
    var s1 := StepSpec(s);
    assert s1 == s.(tape := s.tape[s.pos := c - 1], ip := open + 2);
    CloseStep(s1, open);
    assert RunSpec(s, n + 2) == RunSpec(s1, n + 1) == RunSpec(StepSpec(s1), n);
  }

  /** The body `-]` of `[-]`, entered with the cell at c > 0, runs c times and leaves past the loop. */
  lemma {:induction false} DrainLoop(s: Session, open: int, c: int)
    requires Wf(s) && s.status == Running && ClearLoopAt(s.code, open)
    requires s.ip == open + 1 && s.tape[s.pos] == c > 0
    ensures RunSpec(s, 2 * c) == s.(tape := s.tape[s.pos := 0], ip := open + 3)
    decreases c
  {
    var next := s.(tape := s.tape[s.pos := c - 1], ip := if c > 1 then open + 1 else open + 3);
    var done := s.(tape := s.tape[s.pos := 0], ip := open + 3);
    DrainRound(s, open, c, 2 * (c - 1));
    if c > 1 {
      DrainLoop(next, open, c - 1);
      assert next.tape[s.pos := 0] == done.tape;
    } else {
      assert next == done;
    }
  }

  /**
   `[-]` on a cell holding n takes 2n + 1 steps and leaves the cell at 0,
   past the loop, with nothing else changed.
   */
  lemma ClearLoop(s: Session)
    requires Wf(s) && s.status == Running && ClearLoopAt(s.code, s.ip)
    ensures RunSpec(s, 1 + 2 * s.tape[s.pos]) == s.(tape := s.tape[s.pos := 0], ip := s.ip + 3)
  {
    var c := s.tape[s.pos];
    InnermostMatch(s.code, s.ip, s.ip + 2);
    OpenStep(s, s.ip + 2);
    if c == 0 {
      assert s.tape[s.pos := 0] == s.tape;
    } else {
      DrainLoop(StepSpec(s), s.ip, c);
      assert RunSpec(s, 1 + 2 * c) == RunSpec(StepSpec(s), 2 * c);
    }
  }

  /** `[` k times, `-`, then `]` k times: the clear loop nested k deep. */
  function NestedClear(k: nat): (p: seq<char>)
    ensures |p| == 2 * k + 1
  {
    seq(k, _ => '[') + "-" + seq(k, _ => ']')
  }

  /**
   The program text holds the clear loop nested k >= 1 deep from `open` on:
   `[-]` at depth 1, and a `[` ... `]` pair around depth k - 1 otherwise.
   */
  ghost predicate NestedClearAt(code: seq<char>, open: int, k: nat)
    decreases k
  {
    if k <= 1 then
      k == 1 && ClearLoopAt(code, open)
    else
      && 0 <= open && open + 2 * k < |code|
      && code[open] == '[' && code[open + 2 * k] == ']'
      && NestedClearAt(code, open + 1, k - 1)
  }

  /** One level of the nested text: a `[` ... `]` pair around the level below. */
  lemma NestedClearWrap(k: nat)
    requires k >= 1
    ensures NestedClear(k) == ['['] + NestedClear(k - 1) + [']']
  {
    assert seq(k, _ => '[') == ['['] + seq(k - 1, _ => '[');
    assert seq(k, _ => ']') == seq(k - 1, _ => ']') + [']'];
  }

  /** The text NestedClear(k) at `open`: its brackets, and NestedClear(k - 1) inside them. */
  lemma NestedClearPeel(code: seq<char>, open: int, k: nat)
    requires k >= 1 && 0 <= open && open + 2 * k + 1 <= |code|
    requires code[open..open + 2 * k + 1] == NestedClear(k)
    ensures code[open] == '[' && code[open + 2 * k] == ']'
    ensures code[open + 1..open + 2 * k] == NestedClear(k - 1)
  {
    var p, q := NestedClear(k), NestedClear(k - 1);
    NestedClearWrap(k);
    assert code[open] == p[0];
    assert code[open + 2 * k] == p[2 * k];
    forall t | 0 <= t < 2 * k - 1
      ensures code[open + 1 + t] == q[t]
    {
      assert code[open + 1 + t] == p[t + 1];
    }
    assert code[open + 1..open + 2 * k] == q;
  }

  /** The text NestedClear(k) is the clear loop nested k deep. */
  lemma {:induction false} NestedClearText(code: seq<char>, open: int, k: nat)
    requires k >= 1 && 0 <= open && open + 2 * k + 1 <= |code|
    requires code[open..open + 2 * k + 1] == NestedClear(k)
    ensures NestedClearAt(code, open, k)
    decreases k
  {
    NestedClearPeel(code, open, k);
    if k == 1 {
      assert code[open + 1..open + 2] == "-";
      assert code[open + 1] == '-';
    } else {
      NestedClearText(code, open + 1, k - 1);
    }
  }

  /** A `[` and a `]` around a matching pair match each other. */
  lemma MatchWrap(code: seq<char>, open: int, close: int)
    requires 0 <= open && close < |code| && Matches(code, open + 1, close - 1)
    requires code[open] == '[' && code[close] == ']'
    ensures Matches(code, open, close)
  {
    forall m | open < m <= close
      ensures Net(code[open..m]) > 0
    {
      NetExtendLeft(code, open + 1, m);
      if m == open + 1 {
        assert code[open + 1..m] == [];
      }
    }
    NetExtendLeft(code, open + 1, close + 1);
    NetExtendRight(code, open + 1, close);
  }

  /** The outer `[` and `]` of the nested loop match. */
  lemma {:induction false} NestedOuterMatch(code: seq<char>, open: int, k: nat)
    requires NestedClearAt(code, open, k)
    ensures Matches(code, open, open + 2 * k)
    decreases k
  {
    if k == 1 {
      InnermostMatch(code, open, open + 2);
    } else {
      NestedOuterMatch(code, open + 1, k - 1);
      MatchWrap(code, open, open + 2 * k);
    }
  }

  /** The outer `[` of the nested loop, on a nonzero cell, steps into it. */
  lemma NestedOpenStep(s: Session, k: nat)
    requires Wf(s) && s.status == Running && NestedClearAt(s.code, s.ip, k) && s.tape[s.pos] != 0
    ensures StepSpec(s) == s.(ip := s.ip + 1)
  {
    NestedOuterMatch(s.code, s.ip, k);
    OpenStep(s, s.ip + 2 * k);
  }

  /** The outer `]` of the nested loop at `open`, on a zero cell, steps out of it. */
  lemma NestedCloseStep(s: Session, open: int, k: nat)
    requires Wf(s) && s.status == Running && NestedClearAt(s.code, open, k)
    requires s.ip == open + 2 * k && s.tape[s.pos] == 0
    ensures StepSpec(s) == s.(ip := s.ip + 1)
  {
    NestedOuterMatch(s.code, open, k);
    CloseStep(s, open);
  }

  /** Three stretches of a run, one after the other. */
  lemma {:induction false} RunChain(s: Session, s1: Session, s2: Session, s3: Session, a: nat, b: nat, c: nat, total: nat)
    requires Wf(s) && total == a + b + c
    requires RunSpec(s, a) == s1 && RunSpec(s1, b) == s2 && RunSpec(s2, c) == s3
    ensures RunSpec(s, total) == s3
  {
    RunSplit(s, a, b);
    RunSplit(s, a + b, c);
  }

  /**
   The clear loop nested k deep (NestedClearText: the text `[`^k `-` `]`^k)
   on a cell holding c: on 0 the outer `[` jumps past the whole loop in one
   step; otherwise the k `[` are entered, the innermost `[-]` runs c times,
   and the k - 1 outer `]` fall through, 2k + 2c - 1 steps in all. Either way
   the run ends just past the last `]` with the cell at 0 and nothing else
   changed.
   */
  lemma {:induction false} NestedClearLoop(s: Session, k: nat)
    requires Wf(s) && s.status == Running && NestedClearAt(s.code, s.ip, k)
    ensures var c := s.tape[s.pos];
      RunSpec(s, if c == 0 then 1 else 2 * k + 2 * c - 1)
        == s.(tape := s.tape[s.pos := 0], ip := s.ip + 2 * k + 1)
    decreases k, 1
  {
    var c := s.tape[s.pos];
    if k == 1 {
      ClearLoop(s);
      assert (if c == 0 then 1 else 2 * k + 2 * c - 1) == 1 + 2 * c;
    } else if c == 0 {
      NestedOuterMatch(s.code, s.ip, k);
      OpenStep(s, s.ip + 2 * k);
      assert s.tape[s.pos := 0] == s.tape;
    } else {
      NestedClearDeeper(s, k, c);
    }
  }

  /**
   The program text `[`^k `-` `]`^k at the instruction pointer, run on a
   cell holding c: the run ends just past the last `]` with the cell at 0
   and nothing else changed, in 1 step on 0 and 2k + 2c - 1 steps otherwise.
   */
  lemma {:induction false} NestedClearRun(s: Session, k: nat)
    requires Wf(s) && s.status == Running && k >= 1
    requires 0 <= s.ip && s.ip + 2 * k + 1 <= |s.code| && s.code[s.ip..s.ip + 2 * k + 1] == NestedClear(k)
    ensures var c := s.tape[s.pos];
      RunSpec(s, if c == 0 then 1 else 2 * k + 2 * c - 1)
        == s.(tape := s.tape[s.pos := 0], ip := s.ip + 2 * k + 1)
  {
    NestedClearText(s.code, s.ip, k);
    NestedClearLoop(s, k);
  }

  /**
   The nested loop k >= 2 deep on a cell holding c > 0: its outer `[`, the
   loop nested k - 1 deep inside it, and its outer `]`, which falls through.
   */
  lemma {:induction false} NestedClearDeeper(s: Session, k: nat, c: int)
    requires Wf(s) && s.status == Running && k >= 2 && NestedClearAt(s.code, s.ip, k) && s.tape[s.pos] == c > 0
    ensures RunSpec(s, 2 * k + 2 * c - 1) == s.(tape := s.tape[s.pos := 0], ip := s.ip + 2 * k + 1)
    decreases k, 0
  {
    var open := s.ip;
    var s1 := s.(ip := open + 1);
    NestedOpenStep(s, k);
    NestedClearLoop(s1, k - 1);
    var s2 := s1.(tape := s1.tape[s1.pos := 0], ip := open + 1 + 2 * (k - 1) + 1);
    NestedCloseStep(s2, open, k);
    var done := s.(tape := s.tape[s.pos := 0], ip := open + 2 * k + 1);
    assert s2.(ip := s2.ip + 1) == done;
    RunChain(s, s1, s2, done, 1, 2 * (k - 1) + 2 * c - 1, 1, 2 * k + 2 * c - 1);
  }

  /** `++.` writes the character with code 2 after the banner. */
  lemma PlusPlusDot(size: nat)
    requires size > 0
    ensures var t := RunSpec(Start("++.", size), 4);
      && t.status == Completed && t.ended == 1
      && t.tape[0] == 2
      && t.output == Banner + [2 as char]
  {
    var s0 := Start("++.", size);
    var s1 := StepSpec(s0);
    assert s1.tape[0] == 1 && s1.ip == 1;
    var s2 := StepSpec(s1);
    assert s2.tape[0] == 2 && s2.ip == 2;
    var s3 := StepSpec(s2);
    assert s3.output == Banner + [2 as char] && s3.ip == 3;
  }

  /** `+[-]` terminates with the cell back at 0 and nothing written after the banner. */
  lemma IncrementThenClear(size: nat)
    requires size > 0
    ensures var t := RunSpec(Start("+[-]", size), 5);
      && t.status == Completed && t.ended == 1
      && t.tape == seq(size, _ => 0)
      && t.output == Banner
  {
    var s0 := Start("+[-]", size);
    var s1 := StepSpec(s0);
    assert s1 == s0.(tape := s0.tape[0 := 1], ip := 1);
    ClearLoop(s1);
    var s4 := RunSpec(s1, 3);
    assert s4 == s0.(tape := s0.tape[0 := 1][0 := 0], ip := 4);
    assert s0.tape[0 := 1][0 := 0] == s0.tape;
    RunSplit(s0, 1, 3);
    RunSplit(s0, 4, 1);
  }

  const Multiply: seq<char> := "+++[>+++<-]>."

  /** The text of Multiply, character by character. */
  ghost predicate MultiplyCode(code: seq<char>)
  {
    && |code| == 13
    && code[0] == '+' && code[1] == '+' && code[2] == '+' && code[3] == '['
    && code[4] == '>' && code[5] == '+' && code[6] == '+' && code[7] == '+'
    && code[8] == '<' && code[9] == '-' && code[10] == ']' && code[11] == '>'
    && code[12] == '.'
  }

  ghost predicate InMultiply(s: Session, ip: int)
  {
    Wf(s) && s.status == Running && MultiplyCode(s.code) && |s.tape| >= 2 && s.ip == ip
  }

  /** `+++` sets cell 0 to 3, and `[` enters the loop. */
  lemma MultiplyPrologue(s: Session, n: nat)
    requires InMultiply(s, 0) && s.pos == 0 && s.tape[0] == 0
    ensures Wf(s.(tape := s.tape[0 := 3], ip := 4))
    ensures RunSpec(s, n + 4) == RunSpec(s.(tape := s.tape[0 := 3], ip := 4), n)
  {
    var s1 := StepSpec(s);
    assert s1 == s.(tape := s.tape[0 := 1], ip := 1);
    var s2 := StepSpec(s1);
    assert s2 == s.(tape := s.tape[0 := 2], ip := 2);
    var s3 := StepSpec(s2);
    assert s3 == s.(tape := s.tape[0 := 3], ip := 3);
    var s4 := StepSpec(s3);
    assert s4 == s.(tape := s.tape[0 := 3], ip := 4);
    assert RunSpec(s, n + 4) == RunSpec(s1, n + 3) == RunSpec(s2, n + 2)
        == RunSpec(s3, n + 1) == RunSpec(s4, n);
  }

  /** `>+++<` moves to cell 1, adds 3 there and comes back to cell 0. */
  lemma MultiplyAddThree(s: Session, x: int, n: nat)
    requires InMultiply(s, 4) && s.pos == 0 && s.tape[1] == x && x + 3 < 256
    ensures Wf(s.(tape := s.tape[1 := x + 3], ip := 9))
    ensures RunSpec(s, n + 5) == RunSpec(s.(tape := s.tape[1 := x + 3], ip := 9), n)
  {
    var s1 := StepSpec(s);
    assert s1 == s.(pos := 1, ip := 5);
    var s2 := StepSpec(s1);
    assert s2 == s.(tape := s.tape[1 := x + 1], pos := 1, ip := 6);
    var s3 := StepSpec(s2);
    assert s3 == s.(tape := s.tape[1 := x + 2], pos := 1, ip := 7);
    var s4 := StepSpec(s3);
    assert s4 == s.(tape := s.tape[1 := x + 3], pos := 1, ip := 8);
    var s5 := StepSpec(s4);
    assert s5 == s.(tape := s.tape[1 := x + 3], ip := 9);
    assert RunSpec(s, n + 5) == RunSpec(s1, n + 4) == RunSpec(s2, n + 3)
        == RunSpec(s3, n + 2) == RunSpec(s4, n + 1) == RunSpec(s5, n);
  }

  /** The brackets of Multiply match. */
  lemma MultiplyBrackets(code: seq<char>)
    requires MultiplyCode(code)
    ensures Matches(code, 3, 10)
  {
    InnermostMatch(code, 3, 10);
  }

  /** `-]` counts cell 0 down and jumps back to the body while it is not 0. */
  lemma MultiplyCountDown(s: Session, k: int, n: nat)
    requires InMultiply(s, 9) && s.pos == 0 && s.tape[0] == k > 0
    ensures Wf(s.(tape := s.tape[0 := k - 1], ip := if k > 1 then 4 else 11))
    ensures RunSpec(s, n + 2) == RunSpec(s.(tape := s.tape[0 := k - 1], ip := if k > 1 then 4 else 11), n)
  {
    var s1 := StepSpec(s);
    assert s1 == s.(tape := s.tape[0 := k - 1], ip := 10);
    MultiplyBrackets(s.code);
    CloseStep(s1, 3);
    assert RunSpec(s, n + 2) == RunSpec(s1, n + 1) == RunSpec(StepSpec(s1), n);
  }

  /** One round of the loop of Multiply: seven steps from the start of its body back to it, or out of the loop. */
  lemma MultiplyRound(s: Session, k: int, x: int, n: nat)
    requires InMultiply(s, 4) && s.pos == 0
    requires s.tape[0] == k > 0 && s.tape[1] == x && x + 3 < 256
    ensures var next := s.(tape := s.tape[1 := x + 3][0 := k - 1], ip := if k > 1 then 4 else 11);
      Wf(next) && RunSpec(s, n + 7) == RunSpec(next, n)
  {
    var mid := s.(tape := s.tape[1 := x + 3], ip := 9);
    MultiplyAddThree(s, x, n + 2);
    assert RunSpec(s, n + 7) == RunSpec(mid, n + 2);
    MultiplyCountDown(mid, k, n);
  }

  /**
   The loop of Multiply entered in its body with cell 0 at k > 0 and cell 1
   at x: 7k steps later cell 0 is 0, cell 1 is x + 3k, and the loop is left.
   */
  lemma {:induction false} MultiplyLoop(s: Session, k: int, x: int, n: nat)
    requires InMultiply(s, 4) && s.pos == 0
    requires s.tape[0] == k > 0 && s.tape[1] == x && x + 3 * k < 256
    ensures RunSpec(s, 7 * k + n) == RunSpec(s.(tape := s.tape[0 := 0][1 := x + 3 * k], ip := 11), n)
    decreases k
  {
    var rest := 7 * (k - 1) + n;
    var next := s.(tape := s.tape[1 := x + 3][0 := k - 1], ip := if k > 1 then 4 else 11);
    var done := s.(tape := s.tape[0 := 0][1 := x + 3 * k], ip := 11);
    MultiplyRound(s, k, x, rest);
    assert rest + 7 == 7 * k + n;
    if k > 1 {
      MultiplyLoop(next, k - 1, x + 3, n);
      RewriteTwice(s.tape, x + 3, k - 1, x + 3 * k);
      assert next.(tape := next.tape[0 := 0][1 := x + 3 + 3 * (k - 1)], ip := 11) == done;
    } else {
      RewriteTwice(s.tape, x + 3, 0, x + 3);
      assert next == done;
    }
  }

  /** Writing cells 1 and 0 and then 0 and 1 again keeps only the last writes. */
  lemma RewriteTwice(t: seq<int>, a: int, b: int, d: int)
    requires |t| >= 2
    ensures t[1 := a][0 := b][0 := 0][1 := d] == t[0 := 0][1 := d]
  {
  }

  /** `>.` after the loop: move to cell 1, write it, and complete the run. */
  lemma MultiplyEpilogue(s: Session)
    requires InMultiply(s, 11) && s.pos == 0
    ensures RunSpec(s, 3)
         == s.(pos := 1, output := s.output + [s.tape[1] as char], ip := 13, status := Completed, ended := s.ended + 1)
  {
    var s1 := StepSpec(s);
    assert s1 == s.(pos := 1, ip := 12);
    var s2 := StepSpec(s1);
    assert s2 == s1.(output := s.output + [s.tape[1] as char], ip := 13);
    assert RunSpec(s, 3) == RunSpec(s1, 2) == RunSpec(s2, 1) == StepSpec(s2);
  }

  /** `+++[>+++<-]>.` leaves 9 in cell 1 and writes the character with code 9. */
  lemma MultiplyRun(size: nat)
    requires size >= 2
    ensures var t := RunSpec(Start(Multiply, size), 28);
      && t.status == Completed && t.ended == 1
      && t.tape[0] == 0 && t.tape[1] == 9
      && t.output == Banner + [9 as char]
  {
    var s0 := Start(Multiply, size);
    assert MultiplyCode(Multiply);
    MultiplyPrologue(s0, 24);
    var s4 := s0.(tape := s0.tape[0 := 3], ip := 4);
    MultiplyLoop(s4, 3, 0, 3);
    var s25 := s0.(tape := s4.tape[0 := 0][1 := 9], ip := 11);
    MultiplyEpilogue(s25);
  }
}
