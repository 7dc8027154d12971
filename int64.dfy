/** C# `long` arithmetic on Dafny's unbounded integers: the 64-bit range,
    unchecked (wrapping) and checked (throwing) operations, and division,
    which in C# truncates toward zero. */
module Int64 {
  import opened Wrappers

  const MinLong: int := -0x8000_0000_0000_0000
  const MaxLong: int := 0x7FFF_FFFF_FFFF_FFFF
  /** 2^64, the period of two's-complement wrap-around. */
  const Modulus: int := 0x1_0000_0000_0000_0000

  predicate IsLong(x: int) { MinLong <= x <= MaxLong }

  /** A value of C# type `long`. */
  type int64 = x: int | MinLong <= x <= MaxLong

  /** What an operation in an `unchecked` context (the C# default) leaves in a
      `long` when its exact result is `x`: the one value of the range that is
      congruent to `x` modulo 2^64. */
  function Wrap(x: int): (r: int64)
    ensures (x - r) % Modulus == 0
    ensures IsLong(x) ==> r == x
  {
    (x - MinLong) % Modulus + MinLong
  }

  /** Values congruent modulo 2^64 wrap to the same `long`. */
  lemma WrapCongruent(y: int, z: int)
    requires (y - z) % Modulus == 0
    ensures Wrap(y) == Wrap(z)
  {
    var wy, wz := Wrap(y), Wrap(z);
    assert (y - wy) % Modulus == 0 && (z - wz) % Modulus == 0;
    assert (wy - wz) % Modulus == 0;
    assert -Modulus < wy - wz < Modulus;
  }

  /** Wrapping an intermediate result does not change the wrapped total: an
      unchecked sum of an unchecked product wraps like the exact sum. */
  lemma WrapSum(a: int, x: int)
    ensures Wrap(a + Wrap(x)) == Wrap(a + x)
  {
    assert (x - Wrap(x)) % Modulus == 0;
    assert ((a + Wrap(x)) - (a + x)) % Modulus == 0;
    WrapCongruent(a + Wrap(x), a + x);
  }

  /** Multiplication in a `checked` context: `None` stands for the
      OverflowException. */
  function CheckedMul(a: int64, b: int64): (r: Option<int64>)
    ensures r.Some? <==> IsLong(a * b)
    ensures r.Some? ==> r.value == a * b
  {
    if IsLong(a * b) then Some(a * b) else None
  }

  /** Addition in a `checked` context: `None` stands for the OverflowException. */
  function CheckedAdd(a: int64, b: int64): (r: Option<int64>)
    ensures r.Some? <==> IsLong(a + b)
    ensures r.Some? ==> r.value == a + b
  {
    if IsLong(a + b) then Some(a + b) else None
  }

  /** C#'s `/` on integers for a positive divisor: the quotient is truncated
      toward zero, where Dafny's `/` rounds toward negative infinity for a
      negative dividend. */
  function TruncDiv(a: int, b: int): (q: int)
    requires b > 0
    ensures 0 <= a ==> 0 <= q && q * b <= a < q * b + b
    ensures a < 0 ==> q <= 0 && q * b - b < a <= q * b
  {
    if a >= 0 then
      NonNegativeQuotient(a, b);
      a / b
    else
      NegativeQuotient(a, b);
      -((-a) / b)
  }

  lemma NonNegativeQuotient(a: int, b: int)
    requires b > 0 && a >= 0
    ensures var q := a / b; 0 <= q && q * b <= a < q * b + b
  {
    EuclideanBracket(a, b);
  }

  lemma NegativeQuotient(a: int, b: int)
    requires b > 0 && a < 0
    ensures var q := -((-a) / b); q <= 0 && q * b - b < a <= q * b
  {
    var k := (-a) / b;
    EuclideanBracket(-a, b);
    assert k * b <= -a < k * b + b;
    NegateMul(k, b);
    assert (-k) * b == -(k * b);
  }

  /** Truncation is symmetric about zero. */
  lemma TruncDivNegate(a: int, b: int)
    requires b > 0
    ensures TruncDiv(-a, b) == -TruncDiv(a, b)
  {
  }

  /** Truncating and Euclidean division agree exactly when the dividend is
      non-negative or the division is exact. */
  lemma TruncDivVersusEuclidean(a: int, b: int)
    requires b > 0
    ensures TruncDiv(a, b) == a / b <==> (a >= 0 || a % b == 0)
  {
    if a < 0 {
      var q, e := TruncDiv(a, b), a / b;
      EuclideanBracket(a, b);
      EuclideanUnique(a, b, e);
      if a == q * b {
        EuclideanUnique(a, b, q);
      } else {
        assert e * b <= a < q * b;
        if q <= e {
          MulLeq(q, e, b);
        }
        assert e < q;
        if e <= q - 1 {
          MulLeq(e, q - 1, b);
        }
        assert e * b < a;
      }
    }
  }

  /** The bracketing that defines Dafny's `/` for a positive divisor. */
  lemma EuclideanBracket(x: int, b: int)
    requires b > 0
    ensures (x / b) * b <= x < (x / b) * b + b
  {
    assert x == b * (x / b) + x % b;
    assert 0 <= x % b < b;
  }

  lemma NegateMul(k: int, b: int)
    ensures (-k) * b == -(k * b)
  {
  }

  /** Dafny's `/` is determined by its bracketing: `q * b <= x < q * b + b`. */
  lemma EuclideanUnique(x: int, b: int, q: int)
    requires b > 0
    requires q * b <= x < q * b + b
    ensures x / b == q && x % b == x - q * b
  {
    var e := x / b;
    if e < q {
      MulLeq(e + 1, q, b);
    } else if q < e {
      MulLeq(q + 1, e, b);
    }
  }

  /** Any q whose multiples bracket `a` as the ensures of TruncDiv say is the
      truncated quotient. */
  lemma TruncDivUnique(a: int, b: int, q: int)
    requires b > 0
    requires 0 <= a ==> 0 <= q && q * b <= a < q * b + b
    requires a < 0 ==> q <= 0 && q * b - b < a <= q * b
    ensures TruncDiv(a, b) == q
  {
    var t := TruncDiv(a, b);
    if t < q {
      MulLeq(t + 1, q, b);
    } else if q < t {
      MulLeq(q + 1, t, b);
    }
  }

  lemma MulLeq(x: int, y: int, b: int)
    requires b > 0 && x <= y
    ensures x * b <= y * b
  {
    assert y * b - x * b == (y - x) * b;
  }

  /** Dividing an exact multiple gives the factor back. */
  lemma TruncDivOfMultiple(q: int, b: int)
    requires b > 0
    ensures TruncDiv(q * b, b) == q
  {
    if q >= 0 {
      MulLeq(0, q, b);
      EuclideanUnique(q * b, b, q);
    } else {
      MulLeq(q, -1, b);
      NegateMul(q, b);
      EuclideanUnique(-(q * b), b, -q);
    }
  }

  /** Truncating division by a positive divisor is non-decreasing. */
  lemma TruncDivMonotone(a1: int, a2: int, b: int)
    requires b > 0 && a1 <= a2
    ensures TruncDiv(a1, b) <= TruncDiv(a2, b)
  {
    var q1, q2 := TruncDiv(a1, b), TruncDiv(a2, b);
    if q2 < q1 {
      MulLeq(q2 + 1, q1, b);
    }
  }
}
