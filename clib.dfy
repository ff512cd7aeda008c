/**
 * The pieces of C's numeric behaviour the models share: conversions and
 * integer division that truncate toward zero, and the libc number parsers,
 * which are passed in as functions because nothing is assumed about them.
 */
module CLib {

  /** C's conversion of a double to an integer: truncation toward zero. */
  function TruncToInt(x: real): (r: int)
    ensures x >= 0.0 ==> r == x.Floor
    ensures x < 0.0 ==> r == -((-x).Floor)
  {
    if x >= 0.0 then x.Floor else -((-x).Floor)
  }

  /** C's `a / b` on ints: the quotient truncated toward zero. */
  function CDiv(a: int, b: int): int
    requires b != 0
  {
    var q := (if a < 0 then -a else a) / (if b < 0 then -b else b);
    if (a < 0) == (b < 0) then q else -q
  }

  /** Truncation moves toward zero by less than one. */
  lemma TruncToIntBounds(x: real)
    ensures x >= 0.0 ==> 0.0 <= TruncToInt(x) as real <= x < TruncToInt(x) as real + 1.0
    ensures x < 0.0 ==> TruncToInt(x) as real - 1.0 < x <= TruncToInt(x) as real <= 0.0
  {
  }

  /** C's halving of an int is the truncated exact half, and it is never farther from zero. */
  lemma CDivTwo(a: int)
    ensures 2 * CDiv(a, 2) == a || 2 * CDiv(a, 2) == a - 1 || 2 * CDiv(a, 2) == a + 1
    ensures a >= 0 ==> 0 <= CDiv(a, 2) <= a
    ensures a < 0 ==> a <= CDiv(a, 2) <= 0
  {
  }

  datatype Option<T> = None | Some(value: T)

  /** atof and atoi: their behaviour on malformed text is left open. */
  datatype Libc = Libc(atof: string -> real, atoi: string -> int)
}
