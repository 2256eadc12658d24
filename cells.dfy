/**
 Cell arithmetic of the tape. A cell holds an integer in [0, 255]; `+` and
 `-` wrap around modulo 256 instead of overflowing.
 */
module Cells {

  /** A value a tape cell may hold. */
  predicate IsCell(v: int) { 0 <= v < 256 }

  /** `+`: increment, then reduce modulo 256 (Interpreter.cs lines 70-71). */
  function Inc(v: int): (r: int)
    requires IsCell(v)
    ensures IsCell(r)
    ensures v < 255 ==> r == v + 1
    ensures v == 255 ==> r == 0
  {
    (v + 1) % 256
  }

  /** `-`: decrement, then add 256 if the result went negative (lines 75-76). */
  function Dec(v: int): (r: int)
    requires IsCell(v)
    ensures IsCell(r)
    ensures v > 0 ==> r == v - 1
    ensures v == 0 ==> r == 255
  {
    var w := v - 1;
    if w < 0 then w + 256 else w
  }

  /** `+` and `-` undo each other on every cell value. */
  lemma IncDecInverse(v: int)
    requires IsCell(v)
    ensures Dec(Inc(v)) == v && Inc(Dec(v)) == v
  {
  }

  /** The cell after `n` consecutive `+` instructions. */
  function IncN(v: int, n: nat): (r: int)
    requires IsCell(v)
    ensures IsCell(r)
  {
    if n == 0 then v else Inc(IncN(v, n - 1))
  }

  /** The cell after `n` consecutive `-` instructions. */
  function DecN(v: int, n: nat): (r: int)
    requires IsCell(v)
    ensures IsCell(r)
  {
    if n == 0 then v else Dec(DecN(v, n - 1))
  }

  /** Reducing modulo 256 commutes with a step up or down by one. */
  lemma ModStep(a: int)
    ensures (a % 256 + 1) % 256 == (a + 1) % 256
    ensures ((a + 1) % 256 - 1) % 256 == a % 256
  {
  }

  /** `n` increments add `n` modulo 256. */
  lemma {:induction false} IncNAdds(v: int, n: nat)
    requires IsCell(v)
    ensures IncN(v, n) == (v + n) % 256
  {
    if n > 0 {
      IncNAdds(v, n - 1);
      ModStep(v + n - 1);
    }
  }

  /** `n` decrements subtract `n` modulo 256. */
  lemma {:induction false} DecNSubtracts(v: int, n: nat)
    requires IsCell(v)
    ensures DecN(v, n) == (v - n) % 256
  {
    if n > 0 {
      DecNSubtracts(v, n - 1);
      ModStep(v - n);
    }
  }

  /**
   The wrap-around round trip: any multiple of 256 increments, or of 256
   decrements (256 itself included), gives back the cell unchanged.
   */
  lemma FullTurn(v: int, n: nat)
    requires IsCell(v) && n % 256 == 0
    ensures IncN(v, n) == v && DecN(v, n) == v
  {
    IncNAdds(v, n);
    DecNSubtracts(v, n);
    TurnsVanish(v, n / 256);
    assert n == 256 * (n / 256);
  }

  /** One whole turn of 256 does not change a value modulo 256. */
  lemma ModTurn(a: int)
    ensures (a + 256) % 256 == a % 256
  {
  }

  /** Adding or removing whole turns of 256 leaves a cell value unchanged modulo 256. */
  lemma {:induction false} TurnsVanish(v: int, q: nat)
    requires IsCell(v)
    ensures (v + 256 * q) % 256 == v && (v - 256 * q) % 256 == v
  {
    if q > 0 {
      TurnsVanish(v, q - 1);
      ModTurn(v + 256 * (q - 1));
      ModTurn(v - 256 * q);
    }
  }
}
