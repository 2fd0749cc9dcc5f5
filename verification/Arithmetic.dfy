/** Division with remainder, by any positive number. */
module Arithmetic {
  lemma MulAtLeast(a: int, d: int)
    requires a >= 1 && d > 0
    ensures a * d >= d
  {
    assert (a - 1) * d >= 0;
  }

  /** Quotient and remainder are the only ones. */
  lemma DivModIs(n: int, d: int, q: int, r: int)
    requires d > 0 && n == q * d + r && 0 <= r < d
    ensures n / d == q && n % d == r
  {
    var q', r' := n / d, n % d;
    assert n == q' * d + r';
    assert (q - q') * d == r' - r && (q' - q) * d == r - r';
    if q > q' {
      MulAtLeast(q - q', d);
    } else if q < q' {
      MulAtLeast(q' - q, d);
    }
  }

  lemma DivModOf(n: int, d: int)
    requires d > 0
    ensures n == n / d * d + n % d && 0 <= n % d < d
  {}

  /** A remainder counts up and starts again. */
  lemma ModCounts(n: int, d: int)
    requires d > 0
    ensures (n + 1) % d == if n % d + 1 == d then 0 else n % d + 1
  {
    DivModOf(n, d);
    if n % d + 1 == d {
      assert (n / d + 1) * d == n / d * d + d;
      DivModIs(n + 1, d, n / d + 1, 0);
    } else {
      DivModIs(n + 1, d, n / d, n % d + 1);
    }
  }

  lemma DivCounts(n: int, d: int)
    requires d > 0
    ensures (n + 1) / d == n / d + if (n + 1) % d == 0 then 1 else 0
  {
    DivModOf(n, d);
    if n % d + 1 == d {
      assert (n / d + 1) * d == n / d * d + d;
      DivModIs(n + 1, d, n / d + 1, 0);
    } else {
      DivModIs(n + 1, d, n / d, n % d + 1);
    }
  }

  /** Equal remainders mean a difference that divides. */
  lemma ModEqual(a: int, b: int, d: int)
    requires d > 0
    ensures a % d == b % d <==> (a - b) % d == 0
  {
    DivModOf(a, d);
    DivModOf(b, d);
    DivModOf(a - b, d);
    if a % d == b % d {
      assert (a / d - b / d) * d == a / d * d - b / d * d;
      DivModIs(a - b, d, a / d - b / d, 0);
    }
    if (a - b) % d == 0 {
      assert ((a - b) / d + b / d) * d == (a - b) / d * d + b / d * d;
      DivModIs(a, d, (a - b) / d + b / d, b % d);
    }
  }

  /** Adding a multiple changes nothing. */
  lemma ModPlusMultiple(n: int, k: int, d: int)
    requires d > 0
    ensures (n + k * d) % d == n % d && (n + k * d) / d == n / d + k
  {
    DivModOf(n, d);
    assert (n / d + k) * d == n / d * d + k * d;
    DivModIs(n + k * d, d, n / d + k, n % d);
  }

  lemma ModSmall(n: int, d: int)
    requires 0 <= n < d
    ensures n % d == n && n / d == 0
  {
    DivModIs(n, d, 0, n);
  }

  lemma DivMonotone(a: int, b: int, d: int)
    requires a <= b && d > 0
    ensures a / d <= b / d
  {
    DivModOf(a, d);
    DivModOf(b, d);
    assert (a / d - b / d) * d == a / d * d - b / d * d;
    if a / d > b / d {
      MulAtLeast(a / d - b / d, d);
    }
  }

  /** Converting a unit in two parts, whole and fractional, loses nothing against converting at once. */
  lemma FloorSplit(n: int, k: int, d: int)
    requires d > 0
    ensures n * k / d == n / d * k + n % d * k / d
  {
    DivModOf(n, d);
    assert n * k == n % d * k + n / d * k * d by {
      assert (n / d * d + n % d) * k == n / d * d * k + n % d * k;
      assert n / d * d * k == n / d * k * d;
    }
    ModPlusMultiple(n % d * k, n / d * k, d);
  }

  /** The test against overflow that divides instead of multiplying. */
  lemma QuotientTest(a: int, b: int, k: int)
    requires k > 0
    ensures a > b / k <==> a * k > b
  {
    DivModOf(b, k);
    if a > b / k {
      MulAtLeast(a - b / k, k);
      assert (a - b / k) * k == a * k - b / k * k;
    } else {
      assert (b / k - a) * k >= 0 && (b / k - a) * k == b / k * k - a * k;
    }
  }

  /** A proper fraction of `k` is less than `k`. */
  lemma FractionIsLess(r: int, k: int, d: int)
    requires 0 <= r < d && k > 0
    ensures 0 <= r * k / d < k
  {
    assert r * k >= 0;
    MulAtLeast(d - r, k);
    assert (d - r) * k == d * k - r * k && (k - 1) * d == d * k - d;
    DivModIs(d * k - 1, d, k - 1, d - 1);
    DivModIs(0, d, 0, 0);
    DivMonotone(0, r * k, d);
    DivMonotone(r * k, d * k - 1, d);
  }

  lemma MulGrows(a: int, d: int)
    requires a >= 0 && d > 0
    ensures a * d >= a
  {
    assert a * (d - 1) >= 0;
  }

  /** A quotient is no larger than what was divided, and smaller if something remains. */
  lemma QuotientHasRoom(n: int, d: int)
    requires n >= 0 && d > 0
    ensures 0 <= n / d <= n
    ensures n % d > 0 ==> n / d + 1 <= n
  {
    DivModOf(n, d);
    DivModIs(0, d, 0, 0);
    DivMonotone(0, n, d);
    MulGrows(n / d, d);
  }

  /** What a remainder and a number of turns make together. */
  lemma TurnsAndRemainder(r: int, d: int, turns: int, remainder: int)
    requires 0 <= remainder < d
    ensures r == remainder + turns * d <==> r % d == remainder && r / d == turns
  {
    DivModOf(r, d);
    if r == remainder + turns * d {
      DivModIs(r, d, turns, remainder);
    }
  }

  /** Remainders may be taken early in a sum. */
  lemma ModOfSum(a: int, b: int, d: int)
    requires d > 0
    ensures (a % d + b) % d == (a + b) % d && (a + b % d) % d == (a + b) % d
  {
    DivModOf(a, d);
    DivModOf(b, d);
    ModPlusMultiple(a % d + b, a / d, d);
    ModPlusMultiple(a + b % d, b / d, d);
  }

  lemma ProductOfParts(q: int, r: int, q': int, r': int, d: int)
    ensures (q * d + r) * (q' * d + r') == r * r' + (q * (q' * d + r') + r * q') * d
  {
    var b := q' * d + r';
    assert (q * d + r) * b == q * d * b + r * b;
    assert q * d * b == q * b * d;
    assert r * b == r * (q' * d) + r * r';
    assert r * (q' * d) == r * q' * d;
    assert (q * b + r * q') * d == q * b * d + r * q' * d;
  }

  lemma ModLeft(a: int, b: int, d: int)
    requires d > 0
    ensures (a % d + b) % d == (a + b) % d
  {
    DivModOf(a, d);
    ModPlusMultiple(a % d + b, a / d, d);
  }

  lemma MulMonotone(a: int, c: int, b: int)
    requires a <= c && b >= 0
    ensures a * b <= c * b
  {
    assert (c - a) * b >= 0 && (c - a) * b == c * b - a * b;
  }

  /** And in a product. */
  lemma ModOfProduct(a: int, b: int, d: int)
    requires d > 0
    ensures a % d * (b % d) % d == a * b % d
  {
    DivModOf(a, d);
    DivModOf(b, d);
    ProductOfParts(a / d, a % d, b / d, b % d, d);
    ModPlusMultiple(a % d * (b % d), a / d * b + a % d * (b / d), d);
  }

  /** Rounding down part by part loses at most one against rounding down at once. */
  lemma FloorOfSum(a: int, b: int, d: int)
    requires d > 0
    ensures (a + b) / d == a / d + b / d + if a % d + b % d < d then 0 else 1
  {
    DivModOf(a, d);
    DivModOf(b, d);
    assert (a / d + b / d) * d == a / d * d + b / d * d;
    if a % d + b % d < d {
      DivModIs(a + b, d, a / d + b / d, a % d + b % d);
    } else {
      assert (a / d + b / d + 1) * d == (a / d + b / d) * d + d;
      DivModIs(a + b, d, a / d + b / d + 1, a % d + b % d - d);
    }
  }

  /** The quotient rounded up, by its defining inequalities. */
  lemma CeilingIs(n: int, d: int)
    requires d > 0
    ensures var q := (n + d - 1) / d; (q - 1) * d < n <= q * d
  {
    DivModOf(n + d - 1, d);
    var q := (n + d - 1) / d;
    assert (q - 1) * d == q * d - d;
  }
}
