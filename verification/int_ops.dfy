/** Kotlin's `/` and `rem` (`%`) on Int and Long: the quotient is truncated toward zero and the
    remainder takes the sign of the dividend. Dafny's own `/` and `%` are Euclidean, so the
    recurrence rules use these two functions wherever the source divides. */
module IntOps {

  function Abs(x: int): (r: nat)
    ensures r == x || r == -x
  {
    if x < 0 then -x else x
  }

  /** Truncated quotient, as JVM integer division computes it. */
  function Quot(a: int, b: int): (q: int)
    requires b != 0
    ensures a >= 0 && b > 0 ==> q == a / b
    ensures a <= 0 && b > 0 ==> q == -((-a) / b)
  {
    var m := Abs(a) / Abs(b);
    if (a < 0) == (b < 0) then m else -m
  }

  lemma QuotTimesDivisor(a: int, b: int)
    requires b != 0
    ensures var y: int, q: int := Abs(b), Abs(a) / Abs(b);
      b * Quot(a, b) == if a < 0 then -(y * q) else y * q
  {
    var y: int, q: int := Abs(b), Abs(a) / Abs(b);
    if b < 0 {
      if a < 0 {
        assert b * q == -(y * q);
      } else {
        assert b * -q == y * q;
      }
    } else if a < 0 {
      assert b * -q == -(y * q);
    }
  }

  /** Truncated remainder (Kotlin `rem`): what is left of `a` after taking out `Quot(a, b)` times `b`;
      it is smaller than `b` in magnitude and never of the opposite sign to `a`. */
  function Rem(a: int, b: int): (r: int)
    requires b != 0
    ensures a - r == b * Quot(a, b)
    ensures Abs(r) < Abs(b)
    ensures a >= 0 ==> r >= 0
    ensures a <= 0 ==> r <= 0
  {
    var x: int, y: int := Abs(a), Abs(b);
    var q: int, m: int := x / y, x % y;
    assert x == y * q + m && 0 <= m < y;
    QuotTimesDivisor(a, b);
    if a < 0 then -m else m
  }

  /** On a non-negative dividend and a positive divisor, truncation and Euclidean division agree. */
  lemma RemOfNatural(a: int, b: int)
    requires a >= 0 && b > 0
    ensures Rem(a, b) == a % b
  {
  }
}
