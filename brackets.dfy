/**
 Loop brackets. The interpreter resolves a jump only when it needs one, by
 scanning the program text with a nesting counter (Interpreter.cs lines
 82-103). This module gives the specification the scans are proved against:
 the bracket depth of a piece of program text, what it means for a `[` and a
 `]` to match, and when a program is balanced.
 */
module Brackets {

  datatype Option<T> = None | Some(value: T)

  /** How a character changes the nesting depth. */
  function Delta(c: char): int
  {
    if c == '[' then 1 else if c == ']' then -1 else 0
  }

  /** Depth of a piece of text: its `[` count minus its `]` count. */
  function Net(s: seq<char>): int
  {
    if |s| == 0 then 0 else Net(s[..|s| - 1]) + Delta(s[|s| - 1])
  }

  /** Depth is additive over concatenation. */
  lemma {:induction false} NetConcat(s: seq<char>, t: seq<char>)
    ensures Net(s + t) == Net(s) + Net(t)
  {
    if |t| > 0 {
      var t' := t[..|t| - 1];
      assert (s + t)[..|s + t| - 1] == s + t';
      assert (s + t)[|s + t| - 1] == t[|t| - 1];
      NetConcat(s, t');
    } else {
      assert s + t == s;
    }
  }

  /** Splitting a slice of the program at `m` splits its depth. */
  lemma NetSplit(code: seq<char>, a: int, m: int, b: int)
    requires 0 <= a <= m <= b <= |code|
    ensures Net(code[a..b]) == Net(code[a..m]) + Net(code[m..b])
  {
    assert code[a..b] == code[a..m] + code[m..b];
    NetConcat(code[a..m], code[m..b]);
  }

  /** One more character at the right end of a slice. */
  lemma NetExtendRight(code: seq<char>, a: int, b: int)
    requires 0 <= a <= b < |code|
    ensures Net(code[a..b + 1]) == Net(code[a..b]) + Delta(code[b])
  {
    assert code[a..b + 1][..b - a] == code[a..b];
  }

  /** One more character at the left end of a slice. */
  lemma NetExtendLeft(code: seq<char>, a: int, b: int)
    requires 0 < a <= b <= |code|
    ensures Net(code[a - 1..b]) == Delta(code[a - 1]) + Net(code[a..b])
  {
    NetSplit(code, a - 1, a, b);
    NetExtendRight(code, a - 1, a - 1);
  }

  /** Depth of the text from `a` through `close`, both included. */
  ghost function NetThrough(code: seq<char>, a: int, close: int): int
    requires 0 <= a <= close + 1 <= |code|
  {
    Net(code[a..close + 1])
  }

  /**
   The `[` at `open` and the `]` at `close` match: the text between and
   including them has depth 0, and every nonempty proper prefix of it is
   still open (positive depth), so no earlier `]` closes the `[`.
   */
  ghost predicate Matches(code: seq<char>, open: int, close: int)
  {
    && 0 <= open < close < |code|
    && code[open] == '[' && code[close] == ']'
    && Net(code[open..close + 1]) == 0
    && forall m :: open < m <= close ==> Net(code[open..m]) > 0
  }

  /**
   The same relation seen from the `]`: every nonempty proper suffix of the
   text between them has negative depth, so no later `[` opens it.
   */
  ghost predicate MatchesBackward(code: seq<char>, open: int, close: int)
  {
    && 0 <= open < close < |code|
    && code[open] == '[' && code[close] == ']'
    && NetThrough(code, open, close) == 0
    && forall m :: open < m <= close ==> NetThrough(code, m, close) < 0
  }

  /** Scanning forward from `[` and scanning backward from `]` find the same pairs. */
  lemma MatchDirections(code: seq<char>, open: int, close: int)
    ensures Matches(code, open, close) <==> MatchesBackward(code, open, close)
  {
    if 0 <= open < close < |code| && Net(code[open..close + 1]) == 0 {
      forall m | open < m <= close
        ensures Net(code[open..m]) > 0 <==> NetThrough(code, m, close) < 0
      {
        NetSplit(code, open, m, close + 1);
      }
    }
  }

  /** A `[` has at most one matching `]`. */
  lemma MatchCloseUnique(code: seq<char>, open: int, c1: int, c2: int)
    requires Matches(code, open, c1) && Matches(code, open, c2)
    ensures c1 == c2
  {
  }

  /** A `]` has at most one matching `[`. */
  lemma MatchOpenUnique(code: seq<char>, o1: int, o2: int, close: int)
    requires Matches(code, o1, close) && Matches(code, o2, close)
    ensures o1 == o2
  {
    MatchDirections(code, o1, close);
    MatchDirections(code, o2, close);
  }

  ghost predicate HasClose(code: seq<char>, open: int)
  {
    exists close :: Matches(code, open, close)
  }

  ghost predicate HasOpen(code: seq<char>, close: int)
  {
    exists open :: Matches(code, open, close)
  }

  /**
   A program is balanced when it has depth 0 and no prefix of it closes more
   brackets than it opens.
   */
  ghost predicate Balanced(code: seq<char>)
  {
    && Net(code) == 0
    && forall m :: 0 <= m <= |code| ==> Net(code[..m]) >= 0
  }

  /**
   Forward search for the matching `]`, as a proof: while every prefix up to
   `m` is still open and the rest of the program brings the depth down to 0
   or below, a matching `]` lies ahead.
   */
  lemma {:induction false} CloseAhead(code: seq<char>, open: int, m: int)
    requires 0 <= open < m <= |code| && code[open] == '['
    requires forall m' :: open < m' <= m ==> Net(code[open..m']) > 0
    requires Net(code[open..|code|]) <= 0
    ensures HasClose(code, open)
    decreases |code| - m
  {
    if m < |code| {
      NetExtendRight(code, open, m);
      if Net(code[open..m + 1]) == 0 {
        assert Matches(code, open, m);
      } else {
        CloseAhead(code, open, m + 1);
      }
    }
  }

  /** Backward search for the matching `[`, mirroring CloseAhead. */
  lemma {:induction false} OpenBehind(code: seq<char>, m: int, close: int)
    requires 0 <= m <= close < |code| && code[close] == ']'
    requires forall m' :: m <= m' <= close ==> NetThrough(code, m', close) < 0
    requires NetThrough(code, 0, close) >= 0
    ensures HasOpen(code, close)
    decreases m
  {
    if m > 0 {
      assert NetThrough(code, m, close) < 0;
      NetExtendLeft(code, m, close + 1);
      if Net(code[m - 1..close + 1]) == 0 {
        assert MatchesBackward(code, m - 1, close);
        MatchDirections(code, m - 1, close);
      } else {
        OpenBehind(code, m - 1, close);
      }
    }
  }

  /** In a balanced program every `[` has its matching `]`. */
  lemma BalancedHasClose(code: seq<char>, open: int)
    requires Balanced(code) && 0 <= open < |code| && code[open] == '['
    ensures HasClose(code, open)
  {
    assert code == code[..open] + code[open..|code|];
    NetConcat(code[..open], code[open..|code|]);
    NetExtendRight(code, open, open);
    assert code[open..open] == [];
    CloseAhead(code, open, open + 1);
  }

  /** In a balanced program every `]` has its matching `[`. */
  lemma BalancedHasOpen(code: seq<char>, close: int)
    requires Balanced(code) && 0 <= close < |code| && code[close] == ']'
    ensures HasOpen(code, close)
  {
    NetExtendLeft(code, close + 1, close + 1);
    assert code[close + 1..close + 1] == [];
    assert code[0..close + 1] == code[..close + 1];
    OpenBehind(code, close, close);
  }

  /**
   The forward scan of the `[` instruction (lines 84-90) as a function:
   from index `i` at nesting depth `depth`, skip characters, counting nested
   `[` up and `]` down, and stop at the first `]` met at depth 0. Running
   off the end of the program gives None.
   */
  function MatchForward(code: seq<char>, i: int, depth: int): (r: Option<int>)
    requires 0 <= i
    ensures r.Some? ==> i <= r.value < |code| && code[r.value] == ']'
    decreases |code| - i
  {
    if i >= |code| then None
    else if code[i] == ']' && depth <= 0 then Some(i)
    else MatchForward(code, i + 1, depth + Delta(code[i]))
  }

  /**
   The backward scan of the `]` instruction (lines 95-101) as a function:
   from index `i` down, counting nested `]` up and `[` down, stop at the
   first `[` met at depth 0. Running off the start gives None.
   */
  function MatchBackward(code: seq<char>, i: int, depth: int): (r: Option<int>)
    requires i < |code|
    ensures r.Some? ==> 0 <= r.value <= i && code[r.value] == '['
    decreases i + 1
  {
    if i < 0 then None
    else if code[i] == '[' && depth <= 0 then Some(i)
    else MatchBackward(code, i - 1, depth - Delta(code[i]))
  }

  /** When every prefix after `open` is still open, `open` has no matching `]`. */
  lemma NoClose(code: seq<char>, open: int)
    requires 0 <= open < |code|
    requires forall m :: open < m <= |code| ==> Net(code[open..m]) > 0
    ensures !HasClose(code, open)
  {
    forall close | Matches(code, open, close)
      ensures false
    {
    }
  }

  /**
   The forward scan, resumed at `i` with depth `depth` that agrees with the
   text read since `open`, finds the `]` matching `open`, and finds nothing
   exactly when there is none.
   */
  lemma {:induction false} MatchForwardFinds(code: seq<char>, open: int, i: int, depth: int)
    requires 0 <= open < i <= |code| && code[open] == '['
    requires depth >= 0 && Net(code[open..i]) == depth + 1
    requires forall m :: open < m <= i ==> Net(code[open..m]) > 0
    ensures var r := MatchForward(code, i, depth);
      && (r.Some? ==> Matches(code, open, r.value))
      && (r.None? <==> !HasClose(code, open))
    decreases |code| - i
  {
    if i == |code| {
      NoClose(code, open);
    } else {
      NetExtendRight(code, open, i);
      if code[i] == ']' && depth <= 0 {
        assert Matches(code, open, i);
      } else {
        MatchForwardFinds(code, open, i + 1, depth + Delta(code[i]));
      }
    }
  }

  /** From a `[`, the forward scan lands on its matching `]`, if there is one. */
  lemma ForwardMatch(code: seq<char>, open: int)
    requires 0 <= open < |code| && code[open] == '['
    ensures var r := MatchForward(code, open + 1, 0);
      && (r.Some? ==> Matches(code, open, r.value))
      && (r.None? <==> !HasClose(code, open))
  {
    NetExtendRight(code, open, open);
    assert code[open..open] == [];
    MatchForwardFinds(code, open, open + 1, 0);
  }

  /** One more character at the left end of the text ending at `close`. */
  lemma NetThroughLeft(code: seq<char>, a: int, close: int)
    requires 0 < a <= close + 1 <= |code|
    ensures NetThrough(code, a - 1, close) == Delta(code[a - 1]) + NetThrough(code, a, close)
  {
    NetExtendLeft(code, a, close + 1);
  }

  /** When every suffix ending at `close` has negative depth, `close` has no matching `[`. */
  lemma NoOpen(code: seq<char>, close: int)
    requires 0 <= close < |code|
    requires forall m :: 0 <= m <= close ==> NetThrough(code, m, close) < 0
    ensures !HasOpen(code, close)
  {
    forall open | Matches(code, open, close)
      ensures false
    {
      MatchDirections(code, open, close);
    }
  }

  /**
   The backward scan, resumed at `i` with depth `depth` that agrees with the
   text read since `close`, finds the `[` matching `close`, and finds
   nothing exactly when there is none.
   */
  lemma {:induction false} MatchBackwardFinds(code: seq<char>, i: int, close: int, depth: int)
    requires -1 <= i < close < |code| && code[close] == ']'
    requires depth >= 0 && NetThrough(code, i + 1, close) == -(depth + 1)
    requires forall m :: i < m <= close ==> NetThrough(code, m, close) < 0
    ensures var r := MatchBackward(code, i, depth);
      && (r.Some? ==> Matches(code, r.value, close))
      && (r.None? <==> !HasOpen(code, close))
    decreases i + 1
  {
    if i < 0 {
      NoOpen(code, close);
    } else {
      NetThroughLeft(code, i + 1, close);
      if code[i] == '[' && depth <= 0 {
        MatchDirections(code, i, close);
      } else {
        MatchBackwardFinds(code, i - 1, close, depth - Delta(code[i]));
      }
    }
  }

  /** From a `]`, the backward scan lands on its matching `[`, if there is one. */
  lemma BackwardMatch(code: seq<char>, close: int)
    requires 0 <= close < |code| && code[close] == ']'
    ensures var r := MatchBackward(code, close - 1, 0);
      && (r.Some? ==> Matches(code, r.value, close))
      && (r.None? <==> !HasOpen(code, close))
  {
    NetThroughLeft(code, close + 1, close);
    assert code[close + 1..close + 1] == [];
    MatchBackwardFinds(code, close - 1, close, 0);
  }

  /**
   The `while` loop of the `[` instruction (lines 84-90), with the index and
   the counter `nRB` as locals. The source reads past the end of a program
   without a matching `]`; here the loop stops there and returns None.
   */
  method ScanForward(code: seq<char>, open: int) returns (r: Option<int>)
    requires 0 <= open < |code| && code[open] == '['
    ensures r == MatchForward(code, open + 1, 0)
    ensures r.Some? ==> Matches(code, open, r.value)
    ensures r.None? <==> !HasClose(code, open)
  {
    var depth := 0;
    var i := open + 1;
    while i < |code| && (code[i] != ']' || depth > 0)
      invariant open < i <= |code|
      invariant MatchForward(code, i, depth) == MatchForward(code, open + 1, 0)
      decreases |code| - i
    {
      if code[i] == '[' {
        depth := depth + 1;
      }
      if code[i] == ']' {
        depth := depth - 1;
      }
      i := i + 1;
    }
    if i == |code| {
      r := None;
    } else {
      r := Some(i);
    }
    ForwardMatch(code, open);
  }

  /**
   The `while` loop of the `]` instruction (lines 95-101), with the counter
   `nLB`. Running off the start of the program returns None.
   */
  method ScanBackward(code: seq<char>, close: int) returns (r: Option<int>)
    requires 0 <= close < |code| && code[close] == ']'
    ensures r == MatchBackward(code, close - 1, 0)
    ensures r.Some? ==> Matches(code, r.value, close)
    ensures r.None? <==> !HasOpen(code, close)
  {
    var depth := 0;
    var i := close - 1;
    while i >= 0 && (code[i] != '[' || depth > 0)
      invariant -1 <= i < close
      invariant MatchBackward(code, i, depth) == MatchBackward(code, close - 1, 0)
      decreases i
    {
      if code[i] == ']' {
        depth := depth + 1;
      }
      if code[i] == '[' {
        depth := depth - 1;
      }
      i := i - 1;
    }
    if i < 0 {
      r := None;
    } else {
      r := Some(i);
    }
    BackwardMatch(code, close);
  }
}
