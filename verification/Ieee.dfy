/** Binary floating point as in section 3.4 of IEEE 754-2019, with exact values.

    A format is given by D = 2^p, where p is the number of fraction bits.  The magnitude part of
    a bit pattern (all bits but the sign) is a natural number b: exponent field b / D, fraction
    field b % D.  Its value is counted in units of the format's smallest subnormal number, so
    that every finite value is an integer and all claims are exact. */
module Ieee {
  import opened Words

  // ----- magnitudes -----

  /** The value of magnitude bits b, in units of the least subnormal number. */
  function Units(D: nat, b: nat): nat
    requires D > 0
  {
    var e, f := b / D, b % D;
    if e == 0 then f else (D + f) * Pow2(e - 1)
  }

  /** The bits k * D + m stand for m * 2^k, also when m carries into the exponent field. */
  lemma {:induction false} UnitsAt(D: nat, k: nat, m: nat)
    requires D > 0 && m <= 2 * D && (k == 0 || D <= m)
    ensures Units(D, k * D + m) == m * Pow2(k)
  {
    var b := k * D + m;
    if m < D {
      DivModUnique(b, D, 0, m);
    } else if m < 2 * D {
      assert b == (k + 1) * D + (m - D);
      DivModUnique(b, D, k + 1, m - D);
    } else {
      assert b == (k + 2) * D + 0;
      DivModUnique(b, D, k + 2, 0);
      assert D * Pow2(k + 1) == m * Pow2(k) by {
        assert Pow2(k + 1) == 2 * Pow2(k);
        MulAssoc(D, 2, Pow2(k));
      }
    }
  }

  /** Every bit pattern has the form k * D + m of UnitsAt. */
  lemma {:induction false} Split(D: nat, b: nat) returns (k: nat, m: nat)
    requires D > 0
    ensures b == k * D + m && m < 2 * D && (k == 0 || D <= m)
    ensures Units(D, b) == m * Pow2(k)
    ensures k == if b / D == 0 then 0 else b / D - 1
    ensures m == if b / D == 0 then b % D else D + b % D
  {
    var e, f := DivModDef(b, D);
    if e == 0 {
      k, m := 0, f;
    } else {
      k, m := e - 1, D + f;
      assert b == (e - 1) * D + (D + f);
    }
  }

  /** Neighbouring patterns differ by one unit in the last place. */
  lemma {:induction false} UnitsStep(D: nat, k: nat, m: nat)
    requires D > 0 && m < 2 * D && (k == 0 || D <= m)
    ensures Units(D, k * D + m + 1) == Units(D, k * D + m) + Pow2(k)
  {
    UnitsAt(D, k, m);
    UnitsAt(D, k, m + 1);
    assert k * D + (m + 1) == k * D + m + 1;
    assert (m + 1) * Pow2(k) == m * Pow2(k) + Pow2(k);
  }

  /** The value is strictly increasing in the bit pattern. */
  lemma {:induction false} UnitsMono(D: nat, a: nat, b: nat)
    requires D > 0 && a < b
    ensures Units(D, a) < Units(D, a + 1) <= Units(D, b)
    decreases b - a
  {
    var k, m := Split(D, a);
    UnitsStep(D, k, m);
    if a + 1 < b {
      UnitsMono(D, a + 1, b);
    }
  }

  /** Different patterns have different values. */
  lemma {:induction false} UnitsInjective(D: nat, a: nat, b: nat)
    requires D > 0 && Units(D, a) == Units(D, b)
    ensures a == b
  {
    if a < b {
      UnitsMono(D, a, b);
    } else if b < a {
      UnitsMono(D, b, a);
    }
  }

  // ----- rounding -----

  /** a / d rounded to the nearest integer, ties to even. */
  function RneDiv(a: nat, d: nat): nat
    requires d > 0
  {
    var q, r := a / d, a % d;
    if 2 * r < d || (2 * r == d && q % 2 == 0) then q else q + 1
  }

  ghost predicate IsRne(a: nat, d: nat, m: nat) {
    && 2 * (m * d) - d <= 2 * a <= 2 * (m * d) + d
    && (2 * (m * d) - d == 2 * a || 2 * a == 2 * (m * d) + d ==> m % 2 == 0)
  }

  lemma {:induction false} RneDivSpec(a: nat, d: nat)
    requires d > 0
    ensures IsRne(a, d, RneDiv(a, d))
  {
    var q, r := DivModDef(a, d);
    assert (q + 1) * d == q * d + d;
  }

  /** IsRne leaves one possibility. */
  lemma {:induction false} RneDivUnique(a: nat, d: nat, m: nat)
    requires d > 0 && IsRne(a, d, m)
    ensures m == RneDiv(a, d)
  {
    RneDivSpec(a, d);
    var n := RneDiv(a, d);
    if m < n {
      RneApart(a, d, m, n);
    } else if n < m {
      RneApart(a, d, n, m);
    }
  }

  lemma {:induction false} RneApart(a: nat, d: nat, m: nat, n: nat)
    requires d > 0 && IsRne(a, d, m) && m < n
    ensures !IsRne(a, d, n)
  {
    MulMono(m + 1, n, d);
    assert (m + 1) * d == m * d + d;
    if n > m + 1 {
      MulMono(m + 2, n, d);
      assert (m + 2) * d == m * d + 2 * d;
    }
  }

  /** The least k for which a / d has at most p + 1 bits above position k. */
  function Scale(D: nat, a: nat, d: nat): nat
    requires D > 0 && d > 0
    decreases if d <= a then a - d + 1 else 0
  {
    if a < 2 * D * d then 0
    else
      MulGe(2 * D, d);
      1 + Scale(D, a, 2 * d)
  }

  lemma {:induction false} ScaleSpec(D: nat, a: nat, d: nat)
    requires D > 0 && d > 0
    ensures var k := Scale(D, a, d);
      a < 2 * D * (d * Pow2(k)) && (k > 0 ==> D * (d * Pow2(k)) <= a)
    decreases Scale(D, a, d)
  {
    if a < 2 * D * d {
    } else {
      var k := Scale(D, a, d);
      ScaleSpec(D, a, 2 * d);
      MulAssoc(d, 2, Pow2(k - 1));
      assert 2 * d * Pow2(k - 1) == d * Pow2(k);
      if k == 1 {
        assert D * (d * Pow2(1)) == 2 * D * d;
      }
    }
  }

  /** Magnitude bits of the value a / d (in units) under roundTiesToEven, the exponent field being
      as wide as needed. */
  function RoundMag(D: nat, a: nat, d: nat): nat
    requires D > 0 && d > 0
  {
    var k := Scale(D, a, d);
    MulGe(d, Pow2(k));
    k * D + RneDiv(a, d * Pow2(k))
  }

  /** d times the distance between a / d and the value of y. */
  function Dist(D: nat, a: nat, d: nat, y: nat): nat
    requires D > 0
  {
    var u := Units(D, y) * d;
    if u <= a then a - u else u - a
  }

  /** roundTiesToEven, section 4.3.1 of IEEE 754-2019: no pattern is nearer to a / d than r, and
      r is even when another pattern is as near. */
  ghost predicate IsNearestEven(D: nat, a: nat, d: nat, r: nat)
    requires D > 0
  {
    forall y: nat ::
      && Dist(D, a, d, r) <= Dist(D, a, d, y)
      && (y != r && Dist(D, a, d, r) == Dist(D, a, d, y) ==> r % 2 == 0)
  }

  lemma {:induction false} RoundMagNearest(D: nat, a: nat, d: nat)
    requires D > 0 && D % 2 == 0 && d > 0
    ensures IsNearestEven(D, a, d, RoundMag(D, a, d))
  {
    var r := RoundMag(D, a, d);
    forall y: nat
      ensures Dist(D, a, d, r) <= Dist(D, a, d, y)
      ensures y != r && Dist(D, a, d, r) == Dist(D, a, d, y) ==> r % 2 == 0
    {
      RoundMagAgainst(D, a, d, y);
    }
  }

  /** What RoundMag returns, as a multiple of the step g = d * 2^k of its binade. */
  lemma {:induction false} RoundMagParts(D: nat, a: nat, d: nat) returns (r: nat, k: nat, m: nat, g: nat)
    requires D > 0 && d > 0
    ensures r == RoundMag(D, a, d) == k * D + m && k == Scale(D, a, d)
    ensures g == d * Pow2(k) && g > 0 && IsRne(a, g, m) && m == RneDiv(a, g)
    ensures a < 2 * D * g && (k > 0 ==> D * g <= a)
    ensures m <= 2 * D && (k == 0 || D <= m)
    ensures Units(D, r) == m * Pow2(k) && Units(D, r) * d == m * g
  {
    hide Units, RneDiv, Pow2;
    k := Scale(D, a, d);
    ScaleSpec(D, a, d);
    MulGe(d, Pow2(k));
    g := d * Pow2(k);
    m := RneDiv(a, g);
    r := k * D + m;
    RneDivSpec(a, g);
    RoundedSize(D, a, g);
    UnitsAt(D, k, m);
    MulAssoc(m, Pow2(k), d);
  }

  lemma {:induction false} RoundedSize(D: nat, a: nat, g: nat)
    requires g > 0 && a < 2 * D * g
    ensures RneDiv(a, g) <= 2 * D
    ensures D * g <= a ==> D <= RneDiv(a, g)
  {
    DivBound(a, g, 2 * D);
    if D * g <= a {
      DivAtLeast(a, g, D);
    }
  }

  lemma {:induction false} RoundMagAgainst(D: nat, a: nat, d: nat, y: nat)
    requires D > 0 && D % 2 == 0 && d > 0
    ensures var r := RoundMag(D, a, d);
      && Dist(D, a, d, r) <= Dist(D, a, d, y)
      && (y != r && Dist(D, a, d, r) == Dist(D, a, d, y) ==> r % 2 == 0)
  {
    hide Units, RoundMag, RneDiv, Pow2, Scale;
    var r, k, m, g := RoundMagParts(D, a, d);
    var R, Y := Units(D, r) * d, Units(D, y) * d;
    RoundParity(D, k, m);
    if y > r {
      RoundedBelow(D, d, r, k, m, g, y);
      DistOrder(a, g, R, Y, r % 2 == 0);
    } else if y < r {
      ScaledGap(D, d, y, r);
      if a < R {
        RoundedUp(D, a, k, m, g);
        RoundedAbove(D, d, r, k, m, g, y);
      }
      DistOrder(a, g, R, Y, r % 2 == 0);
    }
  }

  lemma {:induction false} DistOrder(a: nat, g: nat, R: nat, Y: nat, even: bool)
    requires g > 0 && 2 * R - g <= 2 * a <= 2 * R + g
    requires 2 * R - g == 2 * a || 2 * a == 2 * R + g ==> even
    requires Y >= R + g || (Y < R && (a < R ==> Y + g <= R))
    ensures var r, y := (if R <= a then a - R else R - a), (if Y <= a then a - Y else Y - a);
      r <= y && (r == y ==> even)
  {
  }

  lemma {:induction false} RoundedBelow(D: nat, d: nat, r: nat, k: nat, m: nat, g: nat, y: nat)
    requires D > 0 && d > 0 && g == d * Pow2(k) && r == k * D + m
    requires m <= 2 * D && (k == 0 || D <= m) && y > r
    ensures Units(D, y) * d >= Units(D, r) * d + g
  {
    UnitsMono(D, r, y);
    RoundStepUp(D, k, m);
    MulStep(Units(D, r), Units(D, y), Pow2(k), d);
  }

  lemma {:induction false} RoundedAbove(D: nat, d: nat, r: nat, k: nat, m: nat, g: nat, y: nat)
    requires D > 0 && d > 0 && g == d * Pow2(k) && r == k * D + m
    requires 0 < m <= 2 * D && (k == 0 || D <= m - 1) && y < r
    ensures Units(D, y) * d + g <= Units(D, r) * d
  {
    UnitsStep(D, k, m - 1);
    if y < r - 1 {
      UnitsMono(D, y, r - 1);
    }
    MulStep(Units(D, y), Units(D, r), Pow2(k), d);
  }

  lemma {:induction false} MulStep(x: nat, y: nat, P: nat, d: nat)
    requires x + P <= y
    ensures x * d + d * P <= y * d
  {
    MulMono(x + P, y, d);
    MulAdd(x, P, d);
  }

  /** Rounding up leaves the binade's lower end strictly below. */
  lemma {:induction false} RoundedUp(D: nat, a: nat, k: nat, m: nat, g: nat)
    requires D > 0 && g > 0 && a < m * g && (k > 0 ==> D * g <= a) && (k == 0 || D <= m) && m <= 2 * D
    ensures m > 0 && (k > 0 ==> D <= m - 1)
  {
    if k > 0 && m == D {
      assert false;
    }
  }

  /** A pattern is even exactly when its mantissa is. */
  lemma {:induction false} RoundParity(D: nat, k: nat, m: nat)
    requires D % 2 == 0
    ensures (k * D + m) % 2 == m % 2
  {
    var h := k * (D / 2);
    assert k * D == 2 * h;
    DivModUnique(k * D + m, 2, h + m / 2, m % 2);
  }

  /** Above k * D + m the patterns are at least 2^k apart. */
  lemma {:induction false} RoundStepUp(D: nat, k: nat, m: nat)
    requires D > 0 && m <= 2 * D && (k == 0 || D <= m)
    ensures Units(D, k * D + m + 1) >= Units(D, k * D + m) + Pow2(k)
  {
    if m < 2 * D {
      UnitsStep(D, k, m);
    } else {
      assert k * D + m == (k + 1) * D + D;
      UnitsStep(D, k + 1, D);
    }
  }

  /** The definition of roundTiesToEven leaves one possibility. */
  lemma {:induction false} NearestEvenUnique(D: nat, a: nat, d: nat, r: nat, r': nat)
    requires D > 0 && d > 0
    requires IsNearestEven(D, a, d, r) && IsNearestEven(D, a, d, r')
    ensures r == r'
  {
    if r < r' {
      NearestEvenApart(D, a, d, r, r');
    } else if r' < r {
      NearestEvenApart(D, a, d, r', r);
    }
  }

  lemma {:induction false} NearestEvenApart(D: nat, a: nat, d: nat, r: nat, r': nat)
    requires D > 0 && d > 0 && r < r'
    requires IsNearestEven(D, a, d, r)
    ensures !IsNearestEven(D, a, d, r')
  {
    if IsNearestEven(D, a, d, r') {
      assert Dist(D, a, d, r) == Dist(D, a, d, r');
      assert r % 2 == 0 && r' % 2 == 0;
      assert Dist(D, a, d, r) <= Dist(D, a, d, r + 1);
      ScaledGap(D, d, r, r + 1);
      ScaledGap(D, d, r + 1, r');
    }
  }

  lemma {:induction false} ScaledGap(D: nat, d: nat, x: nat, y: nat)
    requires D > 0 && x < y
    ensures Units(D, x) * d + d <= Units(D, y) * d
  {
    UnitsMono(D, x, y);
    MulMono(Units(D, x) + 1, Units(D, y), d);
    MulAdd(Units(D, x), 1, d);
  }
}
