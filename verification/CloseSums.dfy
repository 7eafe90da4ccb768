/**
 Sums of two reciprocals: how close two different ones can be. With denominators up to 1032 two
 fractions (d + e) / (d * e) never differ by less than 1e-12; with 1033 two of them do.
 */
module CloseSums {

  /** A large product of factors up to 1032 has a large sum and factors close together. */
  lemma LargeProduct(d: int, e: int)
    requires 1 <= d <= 1032 && 1 <= e <= 1032 && d * e > 1000000
    ensures d + e >= 2001 && (d - e) * (d - e) <= 3969
  {
    if d >= e {
      LargeProductOrdered(d, e);
    } else {
      LargeProductOrdered(e, d);
      assert (d - e) * (d - e) == (e - d) * (e - d);
    }
  }

  lemma LargeProductOrdered(d: int, e: int)
    requires 1 <= e <= d <= 1032 && d * e > 1000000
    ensures d + e >= 2001 && d - e <= 63 && (d - e) * (d - e) <= 3969
  {
    assert e >= 969 by {
      Scaled(d, 1032, e);
    }
    SumAtLeast(d, e);
    var t := d - e;
    assert d * e <= 1032 * (1032 - t) by {
      Scaled(d, 1032, e);
    }
    Scaled(t, 63, t);
  }

  lemma Scaled(x: int, y: int, z: int)
    requires x <= y && z >= 0
    ensures x * z <= y * z
  {
  }

  lemma SquareNonNegative(x: int)
    ensures x * x >= 0
  {
    if x >= 0 {
      Scaled(0, x, x);
    } else {
      Scaled(0, -x, -x);
    }
  }

  lemma SumAtLeast(d: int, e: int)
    requires 1 <= d <= 1032 && 1 <= e <= 1032 && d * e > 1000000
    ensures d + e >= 2001
  {
    assert (d + e) * (d + e) == 4 * (d * e) + (d - e) * (d - e);
    SquareNonNegative(d - e);
    if d + e <= 2000 {
      Scaled(d + e, 2000, d + e);
    }
  }

  /** Within the bound no two factors have that difference: the first pair that does is 988 and 1033. */
  lemma NotThisPair(d: int, e: int)
    requires 1 <= d <= 1032 && 1 <= e <= 1032 && d * e > 1000000
    ensures (d - e) * (d - e) != 4 + d + e
  {
    LargeProduct(d, e);
    if d >= e {
      DifferenceFits(d, e);
    } else {
      DifferenceFits(e, d);
      assert (d - e) * (d - e) == (e - d) * (e - d);
    }
  }

  lemma DifferenceFits(d: int, e: int)
    requires 1 <= e <= d <= 1032 && d + e >= 2001
    ensures (d - e) * (d - e) != 4 + d + e
  {
    var t := d - e;
    if t <= 44 {
      Scaled(t, 44, t);
    } else {
      Scaled(45, t, t);
    }
  }

  /** The cross difference of two sums, in sums s and squared differences T. */
  lemma CrossInSquares(d: int, e: int, d': int, e': int)
    requires (d' + e') * (d * e) - (d + e) * (d' * e') == 1
    ensures var s, s', T, T' := d + e, d' + e', (d - e) * (d - e), (d' - e') * (d' - e');
            s * s' * (s - s') == s' * T - s * T' + 4
  {
    var s, s', T, T' := d + e, d' + e', (d - e) * (d - e), (d' - e') * (d' - e');
    FourProducts(d, e);
    FourProducts(d', e');
    TimesDifference(s', s * s, T, 4 * (d * e));
    TimesDifference(s, s' * s', T', 4 * (d' * e'));
    FourTimes(s', d * e);
    FourTimes(s, d' * e');
    SplitDifference(s, s');
  }

  lemma FourProducts(d: int, e: int)
    ensures 4 * (d * e) == (d + e) * (d + e) - (d - e) * (d - e)
  {
  }

  lemma TimesDifference(m: int, a: int, b: int, c: int)
    requires c == a - b
    ensures m * c == m * a - m * b
  {
  }

  lemma FourTimes(m: int, p: int)
    ensures m * (4 * p) == 4 * (m * p)
  {
  }

  lemma SplitDifference(s: int, s': int)
    ensures s * s' * (s - s') == s' * (s * s) - s * (s' * s')
  {
  }

  lemma Distribute(a: int, b: int, c: int, m: int)
    ensures (a - b - c) * m == a * m - b * m - c * m
  {
  }

  lemma Difference(a: int, b: int, m: int)
    ensures (a - b) * m == a * m - b * m
  {
  }

  lemma Regroup(h: int, s: int, s': int)
    ensures h * s * s' == s * s' * h && h * s' * s == s * s' * h
  {
    assert h * s * s' == h * (s * s') && h * s' * s == h * (s * s');
  }

  /** Hence both squares are multiples of their sums, but for 4. */
  lemma SecondDivides(s: int, s': int, T: int, T': int, h: int)
    requires h == s - s' && s * s' * h == s' * T - s * T' + 4
    ensures h * T' == 4 + (T - T' - h * s) * s'
  {
    Regroup(h, s, s');
    Distribute(T, T', h * s, s');
    Difference(s, s', T');
  }

  lemma FirstDivides(s: int, s': int, T: int, T': int, h: int)
    requires h == s - s' && s * s' * h == s' * T - s * T' + 4
    ensures h * T == 4 + (T - T' - h * s') * s
  {
    Regroup(h, s, s');
    Distribute(T, T', h * s', s);
    Difference(s, s', T);
  }

  lemma SquaresDivide(s: int, s': int, T: int, T': int, h: int) returns (k: int)
    requires h == s - s' && s * s' * h == s' * T - s * T' + 4
    ensures h * T' == 4 + k * s' && h * T == 4 + (k + h * h) * s
  {
    k := T - T' - h * s;
    SecondDivides(s, s', T, T', h);
    FirstDivides(s, s', T, T', h);
    Difference(s, s', h);
    assert k + h * h == T - T' - h * s';
  }

  lemma OnlyOne(h: int, k: int, s: int, T: int)
    requires h >= 1 && k >= 0 && s >= 2001 && T <= 3969 && h * T == 4 + (k + h * h) * s
    ensures h == 1 && k == 0 && T == 4 + s
  {
    Scaled(T, 3969, h);
    Scaled(2001, s, k + h * h);
    if h >= 2 {
      Scaled(2, h, h);
    }
  }

  /** Sums and squares that fit the equation, the first sum larger. */
  lemma FirstLarger(s: int, s': int, T: int, T': int)
    requires 5 <= s' < s && s >= 2001 && T <= 3969 && T' >= 0
    requires s * s' * (s - s') == s' * T - s * T' + 4
    ensures T == 4 + s
  {
    var h := s - s';
    var k := SquaresDivide(s, s', T, T', h);
    Scaled(0, T', h);
    NonNegative(k, s', h * T');
    OnlyOne(h, k, s, T);
  }

  lemma Negated(x: int, y: int)
    ensures -x * y == -(x * y)
  {
  }

  lemma NegatedSquare(x: int)
    ensures -x * -x == x * x
  {
  }

  /** And the second sum larger: then its square is too large. */
  lemma SecondLarger(s: int, s': int, T: int, T': int)
    requires 1 <= s < s' && s' >= 2001 && T >= 0
    requires s * s' * (s - s') == s' * T - s * T' + 4
    ensures T' > 3969
  {
    var h := s - s';
    var k := SquaresDivide(s, s', T, T', h);
    var g := -h;
    NegatedSquare(h);
    Negated(h, T);
    Negated(h, T');
    Negated(k + h * h, s);
    Negated(k, s');
    Scaled(0, T, g);
    TooMany(g, -k, s, s', g * T, g * T');
    if T' <= 3969 {
      Scaled(T', 3969, g);
    }
  }

  lemma FirstBound(p: int, s: int, s': int, T: int, T': int)
    requires 5 <= s' < s && T' >= 0 && s * s' * (s - s') == s' * T - s * T' + 4
    requires p > 1000000 ==> s >= 2001 && T <= 3969 && T != 4 + s
    ensures p <= 1000000
  {
    if s >= 2001 && T <= 3969 {
      FirstLarger(s, s', T, T');
    }
  }

  lemma SecondBound(p': int, s: int, s': int, T: int, T': int)
    requires 1 <= s < s' && T >= 0 && s * s' * (s - s') == s' * T - s * T' + 4
    requires p' > 1000000 ==> s' >= 2001 && T' <= 3969
    ensures p' <= 1000000
  {
    if s' >= 2001 {
      SecondLarger(s, s', T, T');
    }
  }

  lemma LargerFirst(d: int, e: int, d': int, e': int)
    requires 61 <= d <= 1032 && 61 <= e <= 1032 && 61 <= d' <= 1032 && 61 <= e' <= 1032 && d' + e' < d + e
    requires (d' + e') * (d * e) - (d + e) * (d' * e') == 1
    ensures d * e <= 1000000
  {
    CrossInSquares(d, e, d', e');
    if d * e > 1000000 {
      LargeProduct(d, e);
      NotThisPair(d, e);
    }
    SquareNonNegative(d' - e');
    FirstBound(d * e, d + e, d' + e', (d - e) * (d - e), (d' - e') * (d' - e'));
  }

  lemma LargerSecond(d: int, e: int, d': int, e': int)
    requires 61 <= d <= 1032 && 61 <= e <= 1032 && 61 <= d' <= 1032 && 61 <= e' <= 1032 && d + e < d' + e'
    requires (d' + e') * (d * e) - (d + e) * (d' * e') == 1
    ensures d' * e' <= 1000000
  {
    CrossInSquares(d, e, d', e');
    if d' * e' > 1000000 {
      LargeProduct(d', e');
    }
    SquareNonNegative(d - e);
    SecondBound(d' * e', d + e, d' + e', (d - e) * (d - e), (d' - e') * (d' - e'));
  }

  lemma NonNegative(k: int, s: int, x: int)
    requires s >= 5 && x >= 0 && x == 4 + k * s
    ensures k >= 0
  {
    if k < 0 {
      Scaled(k, -1, s);
    }
  }

  /** Where its fraction is the larger, likewise. */
  lemma TooMany(g: int, k: int, s: int, s': int, x: int, x': int)
    requires g >= 1 && s >= 1 && s' >= 2001 && x >= 0 && x == -4 + (k - g * g) * s && x' == -4 + k * s'
    ensures x' > 3969 * g
  {
    if k - g * g <= 0 {
      Scaled(k - g * g, 0, s);
    }
    Scaled(2001, s', k);
    Scaled(1, g, g);
    assert g * g + 1 >= 2 * g by {
      assert (g - 1) * (g - 1) >= 0;
    }
  }

  /** Of two fractions s / p that differ by one over the product of p and p', the larger sum has the larger product. */
  lemma WithTheSum(p: int, p': int, s: int, s': int)
    requires 2 <= s && 2 <= s' && 1 <= p' && s' * p - s * p' == 1
    ensures s != s' && (s' < s ==> p' < p) && (s < s' ==> p <= p')
  {
    if p <= p' {
      Scaled(p, p', s');
      if s' <= s {
        Scaled(s', s, p');
      }
    } else {
      Scaled(p' + 1, p, s');
      if s <= s' {
        Scaled(s, s', p');
      }
    }
  }

  lemma Product(p: int, q: int)
    requires 0 <= p <= 1000000 && 0 <= q <= 1000000
    ensures p * q <= 1000000000000
  {
    Scaled(p, 1000000, q);
  }

  /**
   If two such fractions differ by one over the product of their denominators, that product is at
   most 1e12: they are 1e-12 apart.
   */
  lemma CloseSumsSmall(d: int, e: int, d': int, e': int)
    requires 61 <= d <= 1032 && 61 <= e <= 1032 && 61 <= d' <= 1032 && 61 <= e' <= 1032
    requires (d' + e') * (d * e) - (d + e) * (d' * e') == 1
    ensures (d * e) * (d' * e') <= 1000000000000
  {
    Scaled(61, d, e);
    Scaled(61, d', e');
    WithTheSum(d * e, d' * e', d + e, d' + e');
    if d' + e' < d + e {
      LargerFirst(d, e, d', e');
    } else {
      LargerSecond(d, e, d', e');
    }
    Product(d * e, d' * e');
  }

}
