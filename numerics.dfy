/** The numeric primitives the engine relies on, over exact reals.

    JavaScript's `Math.PI`, `Math.sqrt`, `Math.exp`, `Math.atan` and the
    power operator `**` with a non-integer exponent have no closed form over
    the reals, so they are carried as the fields of an `Elementary` record.
    Its `Valid()` predicate states the only facts about them that the proofs
    use.  `Math.floor`, `Math.ceil` and `Math.round` are exact and are
    defined outright.
 */
module Numerics {

  /** The elementary functions, as values that every caller passes down. */
  datatype Elementary = Elementary(
    pi: real,
    sqrt: real -> real,
    exp: real -> real,
    atan: real -> real,
    pow: (real, real) -> real)
  {
    /** The laws of the real elementary functions that the model uses. */
    ghost predicate Valid() {
      && pi > 0.0
      && (forall x :: 0.0 <= x ==> 0.0 <= sqrt(x) && Square(sqrt(x)) == x)
      && exp(0.0) == 1.0
      && (forall x :: 0.0 < exp(x))
      && (forall x, y :: x < y ==> exp(x) < exp(y))
      && (forall b, e :: 0.0 < b ==> 0.0 < pow(b, e))
      && (forall b, c, e :: 0.0 < b < c && 0.0 < e ==> pow(b, e) < pow(c, e))
    }
  }

  /** The square root is the unique non-negative number squaring to its argument. */
  lemma {:induction false} SqrtOfSquare(m: Elementary, y: real)
    requires m.Valid() && 0.0 <= y
    ensures m.sqrt(Square(y)) == y
  {
    SquareNonNegative(y);
    var s := m.sqrt(Square(y));
    assert 0.0 <= s && Square(s) == Square(y);
    calc {
      (s - y) * (s + y);
      == s * s - y * y;
      == Square(s) - Square(y);
      == 0.0;
    }
    if s + y != 0.0 {
      ZeroProductFactor(s - y, s + y);
    }
  }

  /** The square root of a positive number is positive. */
  lemma SqrtPositive(m: Elementary, x: real)
    requires m.Valid() && 0.0 < x
    ensures 0.0 < m.sqrt(x)
  {
    assert Square(m.sqrt(x)) == x;
  }

  lemma SquareStrictlyMonotone(a: real, b: real)
    requires 0.0 <= a < b
    ensures Square(a) < Square(b)
  {
    var u, v := b - a, b + a;
    assert 0.0 < u * v;
    calc {
      Square(b) - Square(a);
      == b * b - a * a;
      == u * v;
      > 0.0;
    }
  }

  /** Non-negative numbers with equal squares are equal. */
  lemma SquareInjective(a: real, b: real)
    requires 0.0 <= a && 0.0 <= b && Square(a) == Square(b)
    ensures a == b
  {
    if a < b {
      SquareStrictlyMonotone(a, b);
    } else if b < a {
      SquareStrictlyMonotone(b, a);
    }
  }

  lemma ZeroProductFactor(a: real, b: real)
    requires a * b == 0.0 && b != 0.0
    ensures a == 0.0
  {
    assert a == (a * b) / b;
  }

  /** `x ** 2`. */
  function Square(x: real): real {
    x * x
  }

  /** `x ** 4`. */
  function FourthPower(x: real): real {
    Square(Square(x))
  }

  lemma SquareNonNegative(x: real)
    ensures 0.0 <= Square(x)
  {
    calc {
      Square(x);
      == x * x;
      >= 0.0;
    }
  }

  lemma SquarePositive(x: real)
    requires x != 0.0
    ensures 0.0 < Square(x)
  {
    calc {
      Square(x);
      == x * x;
      > 0.0;
    }
  }

  lemma FourthPowerFacts(x: real)
    ensures 0.0 <= FourthPower(x)
    ensures x != 0.0 ==> 0.0 < FourthPower(x)
  {
    SquareNonNegative(Square(x));
    if x != 0.0 {
      SquarePositive(x);
      SquarePositive(Square(x));
    }
  }

  /** `Math.floor`: the greatest integer not above `x`. */
  function Floor(x: real): (r: int)
    ensures r as real <= x < r as real + 1.0
  {
    x.Floor
  }

  /** `Math.ceil`: the least integer not below `x`. */
  function Ceil(x: real): (r: int)
    ensures x <= r as real < x + 1.0
  {
    -Floor(-x)
  }

  /** `Math.round`: the nearest integer, ties going towards plus infinity. */
  function Round(x: real): (r: int)
    ensures x - 0.5 < r as real <= x + 0.5
  {
    Floor(x + 0.5)
  }

  /** Whether `x` is a whole number of steps `1/scale`. */
  predicate OnGrid(x: real, scale: real) {
    Floor(x * scale) as real == x * scale
  }

  /** `Math.round(x * scale) / scale`: the point of the grid of step `1/scale`
      nearest `x`, ties going up. */
  function RoundTo(x: real, scale: real): (r: real)
    requires 0.0 < scale
    ensures OnGrid(r, scale)
    ensures x - 0.5 / scale < r <= x + 0.5 / scale
  {
    var n := Round(x * scale);
    var g := n as real / scale;
    assert g * scale == n as real;
    assert Floor(g * scale) == n;
    assert OnGrid(g, scale);
    assert g <= (x * scale + 0.5) / scale;
    assert (x * scale - 0.5) / scale < g;
    g
  }

  /** Rounding to a grid never reverses the order of two values. */
  lemma RoundToMonotone(x: real, y: real, scale: real)
    requires 0.0 < scale && x <= y
    ensures RoundTo(x, scale) <= RoundTo(y, scale)
  {
    assert x * scale <= y * scale;
    var a, b := Round(x * scale), Round(y * scale);
    assert a <= b;
    assert a as real / scale <= b as real / scale;
  }

  /** Two values at least one grid step apart round to different grid points. */
  lemma RoundToSeparates(x: real, y: real, scale: real)
    requires 0.0 < scale && x + 1.0 / scale <= y
    ensures RoundTo(x, scale) < RoundTo(y, scale)
  {
    assert x * scale + 1.0 <= y * scale by {
      var u := x + 1.0 / scale;
      assert u * scale == x * scale + 1.0;
      assert u * scale <= y * scale;
    }
    assert Round(x * scale) < Round(y * scale);
    assert Round(x * scale) as real < Round(y * scale) as real;
  }

  /** Zero lies on every grid. */
  lemma RoundToZero(scale: real)
    requires 0.0 < scale
    ensures RoundTo(0.0, scale) == 0.0
  {
  }
}
