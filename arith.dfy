/** Exact integer models of the three pieces of Python arithmetic the
    stitch-plan builder uses: `round` of a half-integer, `int()` of a
    quotient (truncation toward zero), and `int(sqrt(s) / 127) + 1`. */
module Arith {

  /** The largest distance, in 0.1 mm units, that one PES stitch may cover. */
  const MaxStitch: int := 127

  /** v * v, written as a sum of odd numbers so that the verifier expands it
      only on request (SqIsProduct). */
  function Sq(v: int): (r: int)
    ensures r >= 0
    decreases if v < 0 then 1 - v else v
  {
    if v < 0 then Sq(-v) else if v == 0 then 0 else Sq(v - 1) + 2 * v - 1
  }

  lemma {:induction false} SqIsProduct(v: int)
    ensures Sq(v) == v * v
    decreases if v < 0 then 1 - v else v
  {
    if v < 0 {
      SqIsProduct(-v);
      assert (-v) * (-v) == v * v;
    } else if v > 0 {
      SqIsProduct(v - 1);
      assert (v - 1) * (v - 1) == v * v - 2 * v + 1;
    }
  }

  /** Squared Euclidean length of the displacement (dx, dy). */
  function Dist2(dx: int, dy: int): (s: int)
    ensures s >= 0
  {
    Sq(dx) + Sq(dy)
  }

  /** Python's `round(d / 2)`: the integer nearest to d/2, ties going to the
      even neighbour ("banker's rounding"). For d >= 0 a tie is d = 4m + 1
      (nearest even 2m) or d = 4m + 3 (nearest even 2m + 2); rounding half
      to even treats -d as the mirror image of d. */
  function RoundHalf(d: int): int
    decreases if d < 0 then 1 else 0
  {
    if d < 0 then -RoundHalf(-d)
    else if d % 4 == 3 then d / 2 + 1
    else d / 2
  }

  /** RoundHalf(d) is within 1/2 of d/2, and even whenever d/2 is a tie. */
  lemma RoundHalfNearest(d: int)
    ensures var r := RoundHalf(d); -1 <= d - 2 * r <= 1 && (d - 2 * r != 0 ==> r % 2 == 0)
  {
    if d < 0 {
      RoundHalfNearestNat(-d);
      var r := RoundHalf(-d);
      assert RoundHalf(d) == -r;
      if -d - 2 * r != 0 {
        assert r == 2 * (r / 2);
        assert -r == 2 * -(r / 2);
      }
    } else {
      RoundHalfNearestNat(d);
    }
  }

  lemma RoundHalfNearestNat(d: int)
    requires d >= 0
    ensures var r := RoundHalf(d); -1 <= d - 2 * r <= 1 && (d - 2 * r != 0 ==> r % 2 == 0)
  {
    var q, m := d / 4, d % 4;
    assert d == 4 * q + m;
    if m == 0 {
      assert RoundHalf(d) == 2 * q;
    } else if m == 1 {
      assert RoundHalf(d) == 2 * q;
    } else if m == 2 {
      assert RoundHalf(d) == 2 * q + 1;
    } else {
      assert RoundHalf(d) == 2 * q + 2;
    }
  }

  /** The two properties of RoundHalfNearest determine the result. */
  lemma RoundHalfUnique(d: int, r: int)
    requires -1 <= d - 2 * r <= 1
    requires d - 2 * r != 0 ==> r % 2 == 0
    ensures r == RoundHalf(d)
  {
    RoundHalfNearest(d);
    NearestHalfUnique(d, r, RoundHalf(d));
  }

  /** At most one integer is within 1/2 of d/2 and even on a tie. */
  lemma NearestHalfUnique(d: int, r: int, h: int)
    requires -1 <= d - 2 * r <= 1 && (d - 2 * r != 0 ==> r % 2 == 0)
    requires -1 <= d - 2 * h <= 1 && (d - 2 * h != 0 ==> h % 2 == 0)
    ensures r == h
  {
    var k := d / 2;
    assert d == 2 * k + d % 2;
    assert (k + 1) % 2 != k % 2;
  }

  /** Ties to even are symmetric about zero: round(-v) == -round(v). */
  lemma RoundHalfOdd(d: int)
    ensures RoundHalf(-d) == -RoundHalf(d)
  {
    var r := RoundHalf(d);
    RoundHalfNearest(d);
    assert -d - 2 * -r == -(d - 2 * r);
    if -d - 2 * -r != 0 {
      assert r % 2 == 0;
      assert (-r) % 2 == 0;
    }
    RoundHalfUnique(-d, -r);
  }

  /** Rounding never reverses the order of two values. */
  lemma RoundHalfMonotone(a: int, b: int)
    requires a <= b
    ensures RoundHalf(a) <= RoundHalf(b)
  {
    var ra, rb := RoundHalf(a), RoundHalf(b);
    RoundHalfNearest(a);
    RoundHalfNearest(b);
    if ra > rb {
      assert false;
    }
  }

  /** Python's `int(a / b)` for a positive divisor: the quotient truncated
      toward zero (Dafny's own `/` floors, which differs for negative a). */
  function TruncDiv(a: int, b: int): int
    requires b > 0
  {
    if a >= 0 then a / b else -((-a) / b)
  }

  /** TruncDiv(a, b) is the integer quotient rounded toward zero: b times it
      lies at most b - 1 below a for a >= 0, and at most b - 1 above a for
      a < 0. */
  lemma TruncDivBounds(a: int, b: int)
    requires b > 0
    ensures var q := TruncDiv(a, b);
      (a >= 0 ==> 0 <= q && q * b <= a < q * b + b) &&
      (a < 0 ==> q <= 0 && q * b - b < a <= q * b)
  {
    if a >= 0 {
      FloorDivBounds(a, b);
    } else {
      var t := (-a) / b;
      FloorDivBounds(-a, b);
      assert (-t) * b == -(t * b);
    }
  }

  lemma FloorDivBounds(n: int, b: int)
    requires n >= 0 && b > 0
    ensures 0 <= n / b && (n / b) * b <= n < (n / b) * b + b
  {
  }

  /** An exact quotient is not changed by truncation. */
  lemma TruncDivExact(q: int, b: int)
    requires b > 0
    ensures TruncDiv(q * b, b) == q
  {
    var t := TruncDiv(q * b, b);
    TruncDivBounds(q * b, b);
    if t > q {
      MulMonotone(q + 1, t, b);
      assert false;
    } else if t < q {
      MulMonotone(t + 1, q, b);
      assert false;
    }
  }

  lemma MulMonotone(u: int, v: int, b: int)
    requires u <= v && b >= 0
    ensures u * b <= v * b
  {
    assert v * b - u * b == (v - u) * b;
  }

  /** Search for the number of sub-segments of a long jump, starting at k. */
  function StepsFrom(s: int, k: nat): (r: nat)
    requires k >= 1 && Sq(MaxStitch * (k - 1)) <= s
    ensures r >= k
    ensures Sq(MaxStitch * (r - 1)) <= s < Sq(MaxStitch * r)
    decreases s - Sq(MaxStitch * k)
  {
    if s < Sq(MaxStitch * k) then k
    else
      assert Sq(MaxStitch * k) < Sq(MaxStitch * (k + 1)) by {
        var a := MaxStitch * k;
        assert MaxStitch * (k + 1) == a + MaxStitch;
        SqIsProduct(a);
        SqIsProduct(a + MaxStitch);
        assert (a + MaxStitch) * (a + MaxStitch) == a * a + 2 * MaxStitch * a + MaxStitch * MaxStitch;
      }
      StepsFrom(s, k + 1)
  }

  /** `int(sqrt(s) / 127) + 1` for a squared distance s beyond 127 squared:
      the k with 127 (k - 1) <= sqrt(s) < 127 k. */
  function JumpSteps(s: int): (n: nat)
    requires s > MaxStitch * MaxStitch
    ensures n >= 2
    ensures Sq(MaxStitch * (n - 1)) <= s < Sq(MaxStitch * n)
  {
    SqIsProduct(MaxStitch);
    StepsFrom(s, 1)
  }

  /** The bracketing in JumpSteps's contract determines the count. */
  lemma JumpStepsUnique(s: int, k: int)
    requires s > MaxStitch * MaxStitch && k >= 1
    requires Sq(MaxStitch * (k - 1)) <= s < Sq(MaxStitch * k)
    ensures k == JumpSteps(s)
  {
    var n := JumpSteps(s);
    if k < n {
      SqMonotone(MaxStitch * k, MaxStitch * (n - 1));
      assert false;
    } else if k > n {
      SqMonotone(MaxStitch * n, MaxStitch * (k - 1));
      assert false;
    }
  }

  lemma SqMonotone(u: int, v: int)
    requires 0 <= u <= v
    ensures Sq(u) <= Sq(v)
  {
    SqIsProduct(u);
    SqIsProduct(v);
    MulMonotone(u, v, u);
    MulMonotone(u, v, v);
  }

  /** Truncating division moves forward by less than d/b + 1 when its
      dividend grows by d >= 0: (v - u - 1) * b < d for u, v the two quotients. */
  lemma TruncDivStep(a: int, d: int, b: int)
    requires b > 0 && d >= 0
    ensures TruncDiv(a, b) <= TruncDiv(a + d, b)
    ensures (TruncDiv(a + d, b) - TruncDiv(a, b) - 1) * b < d
  {
    TruncDivBounds(a, b);
    TruncDivBounds(a + d, b);
    QuotientStep(a, a + d, b, TruncDiv(a, b), TruncDiv(a + d, b));
  }

  /** The arithmetic behind TruncDivStep, for two quotients u, v toward zero
      of dividends a <= a2. */
  lemma QuotientStep(a: int, a2: int, b: int, u: int, v: int)
    requires b > 0 && a <= a2
    requires a >= 0 ==> 0 <= u && u * b <= a < u * b + b
    requires a < 0 ==> u <= 0 && u * b - b < a <= u * b
    requires a2 >= 0 ==> 0 <= v && v * b <= a2 < v * b + b
    requires a2 < 0 ==> v <= 0 && v * b - b < a2 <= v * b
    ensures u <= v && (v - u - 1) * b < a2 - a
  {
    var ub, vb := u * b, v * b;
    assert (v - u - 1) * b == vb - ub - b;
    if a >= 0 {
      assert (v + 1) * b == vb + b;
      MulCancel(u, v + 1, b);
    } else if a2 < 0 {
      assert (u - 1) * b == ub - b;
      MulCancel(u - 1, v, b);
    }
  }

  lemma MulCancel(u: int, v: int, b: int)
    requires b > 0 && u * b < v * b
    ensures u < v
  {
    if u >= v {
      MulMonotone(v, u, b);
    }
  }

  /** A difference of less than 128 b, divided by b, differs by at most 127. */
  lemma BelowPerStep(w: int, d: int, b: int)
    requires b > 0 && w * b < d + b && d < MaxStitch * b
    ensures w <= MaxStitch
  {
    if w > MaxStitch {
      MulMonotone(MaxStitch + 1, w, b);
      assert false;
    }
  }

  /** An axis of a displacement is no longer than the displacement. */
  lemma AxisBelow(dx: int, dy: int, m: int)
    requires m >= 0 && Dist2(dx, dy) < Sq(m)
    ensures -m < dx < m && -m < dy < m
  {
    if dx >= m { SqMonotone(m, dx); assert false; }
    if -dx >= m { SqMonotone(m, -dx); assert false; }
    if dy >= m { SqMonotone(m, dy); assert false; }
    if -dy >= m { SqMonotone(m, -dy); assert false; }
  }
}
