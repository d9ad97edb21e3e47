/** The few facts about division with remainder that a circular index needs. */
module ModularArithmetic {

  /** Quotient and remainder are determined by x == q * c + r with 0 <= r < c. */
  lemma DivModUnique(x: int, c: int, q: int, r: int)
    requires 0 <= r < c && x == q * c + r
    ensures x / c == q && x % c == r
  {
    var d := q - x / c;
    assert d * c == x % c - r by {
      assert x == x / c * c + x % c;
      assert d * c == q * c - x / c * c;
    }
    if d >= 1 {
      MulMonotone(1, d, c);
    } else if d <= -1 {
      MulMonotone(d, -1, c);
    }
  }

  lemma MulMonotone(a: int, b: int, c: int)
    requires a <= b && 0 <= c
    ensures a * c <= b * c
  {
  }

  /** Numbers less than c apart with the same remainder are equal. */
  lemma CongruentClose(a: int, b: int, c: int)
    requires 0 < c && a % c == b % c && -c < a - b < c
    ensures a == b
  {
    var d := a / c - b / c;
    assert a - b == d * c by {
      assert a == a / c * c + a % c && b == b / c * c + b % c;
      assert d * c == a / c * c - b / c * c;
    }
    if d >= 1 {
      MulMonotone(1, d, c);
    } else if d <= -1 {
      MulMonotone(d, -1, c);
    }
  }

  /** Shifting by a multiple of c keeps the remainder. */
  lemma ModShift(a: int, q: int, c: int)
    requires 0 < c
    ensures (a + q * c) % c == a % c
  {
    assert a + q * c == (a / c + q) * c + a % c by {
      assert a == a / c * c + a % c;
      assert (a / c + q) * c == a / c * c + q * c;
    }
    DivModUnique(a + q * c, c, a / c + q, a % c);
  }

  /** Adding to congruent numbers keeps them congruent. */
  lemma ModAdd(a: int, b: int, t: int, c: int)
    requires 0 < c && a % c == b % c
    ensures (a + t) % c == (b + t) % c
  {
    var q := a / c - b / c;
    assert a + t == b + t + q * c by {
      assert a == a / c * c + a % c && b == b / c * c + b % c;
      assert q * c == a / c * c - b / c * c;
    }
    ModShift(b + t, q, c);
  }
}
