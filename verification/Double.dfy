/** Doubles as the two 32-bit words that EXTRACT_WORDS and INSERT_WORDS move, with the sum and
    product of section 5.4.1 of IEEE 754-2019 under roundTiesToEven. */
module Doubles {
  import opened Words
  import opened Ieee

  /** 2^52: one step of the exponent field in a magnitude. */
  const D52: nat := 0x10_0000_0000_0000
  /** Magnitude bits of infinity; NaNs lie above. */
  const INF: nat := 0x7FF0_0000_0000_0000
  /** The unit of Units is 2^-1074. */
  const UNIT: nat := 1074

  datatype Double = Double(hi: word, lo: word) {
    predicate Negative() {
      hi >= 0x8000_0000
    }

    function Mag(): nat {
      hi % 0x8000_0000 * 0x1_0000_0000 + lo
    }

    predicate Finite() {
      Mag() < INF
    }

    predicate IsInf() {
      Mag() == INF
    }

    predicate IsNaN() {
      Mag() > INF
    }

    /** The exact value, in units of 2^-1074. */
    function Value(): int {
      if Negative() then 0 - Units(D52, Mag()) else Units(D52, Mag())
    }
  }

  function Make(negative: bool, mag: nat): (r: Double)
    requires mag < 0x8000_0000_0000_0000
    ensures r.Negative() == negative && r.Mag() == mag
  {
    var h := mag / 0x1_0000_0000;
    Double(if negative then h + 0x8000_0000 else h, mag % 0x1_0000_0000)
  }

  lemma {:induction false} SameDouble(x: Double, y: Double)
    requires x.Negative() == y.Negative() && x.Mag() == y.Mag()
    ensures x == y
  {
    var a, b := x.hi % 0x8000_0000, y.hi % 0x8000_0000;
    DivModUnique(x.Mag(), 0x1_0000_0000, a, x.lo);
    DivModUnique(y.Mag(), 0x1_0000_0000, b, y.lo);
  }

  /** Exponent and fraction field in terms of the words. */
  lemma {:induction false} Fields(x: Double)
    ensures x.Mag() / D52 == x.hi % 0x8000_0000 / 0x10_0000 == x.hi / 0x10_0000 % 0x800
    ensures x.Mag() % D52 == x.hi % 0x10_0000 * 0x1_0000_0000 + x.lo
  {
    var h := x.hi % 0x8000_0000;
    assert h / 0x10_0000 == x.hi / 0x10_0000 % 0x800 && h % 0x10_0000 == x.hi % 0x10_0000;
    DivModUnique(x.Mag(), D52, h / 0x10_0000, h % 0x10_0000 * 0x1_0000_0000 + x.lo);
  }

  /** The tests for zero that the sources use. */
  lemma {:induction false} MagZero(x: Double)
    ensures Or(And(x.hi, 0x7FFF_FFFF), x.lo) == 0 <==> x.Mag() == 0
    ensures Or(x.lo, And(x.hi, 0x7FFF_FFFF)) == 0 <==> x.Mag() == 0
    ensures !x.Negative() ==> (Or(x.hi, x.lo) == 0 <==> x.Mag() == 0)
  {
    hide And, Or;
    ClearSign(x.hi);
  }

  const ONE := Double(0x3FF0_0000, 0)
  const TINY := Double(0x01A5_6E1F, 0xC2F8_F359)
  const HUGE := Double(0x7E37_E43C, 0x8800_759C)
  const TWO54 := Double(0x4350_0000, 0)
  const TWOM54 := Double(0x3C90_0000, 0)
  /** A quiet NaN: what invalid operations return. */
  const QNAN := Double(0x7FF8_0000, 0)

  function Neg(x: Double): Double {
    Make(!x.Negative(), x.Mag())
  }

  // ----- arithmetic -----

  /** The value a / d (in units), rounded once and given a sign; infinity on overflow. */
  function RoundDouble(negative: bool, a: nat, d: nat): Double
    requires d > 0
  {
    var r := RoundMag(D52, a, d);
    Make(negative, if r < INF then r else INF)
  }

  /** x + y for finite operands.  An exact zero sum is +0 unless both operands are negative. */
  function FAdd(x: Double, y: Double): Double
    requires x.Finite() && y.Finite()
  {
    var n := x.Value() + y.Value();
    if n == 0 then Make(x.Negative() && y.Negative(), 0)
    else RoundDouble(n < 0, if n < 0 then -n else n, 1)
  }

  function FSub(x: Double, y: Double): Double
    requires x.Finite() && y.Finite()
  {
    FAdd(x, Neg(y))
  }

  /** x * y for finite operands: units times units are counted in 2^-2148. */
  function FMul(x: Double, y: Double): Double
    requires x.Finite() && y.Finite()
  {
    RoundDouble(x.Negative() != y.Negative(), Units(D52, x.Mag()) * Units(D52, y.Mag()), Pow2(UNIT))
  }

  /** Rounding a representable value changes nothing. */
  lemma {:induction false} RoundExact(D: nat, a: nat, d: nat, b: nat)
    requires D > 0 && D % 2 == 0 && d > 0 && a == Units(D, b) * d
    ensures RoundMag(D, a, d) == b
  {
    var r := RoundMag(D, a, d);
    RoundMagNearest(D, a, d);
    assert Dist(D, a, d, r) <= Dist(D, a, d, b);
    if r < b {
      ScaledGap(D, d, r, b);
    } else if b < r {
      ScaledGap(D, d, b, r);
    }
  }

  /** A value nearer to pattern b than half the way to its neighbours rounds to b. */
  lemma {:induction false} RoundNearby(D: nat, a: nat, b: nat)
    requires D > 0 && D % 2 == 0 && b > 0
    requires 2 * a < Units(D, b) + Units(D, b + 1)
    requires 2 * a > Units(D, b) + Units(D, b - 1)
    ensures RoundMag(D, a, 1) == b
  {
    hide Units, RoundMag;
    var r := RoundMag(D, a, 1);
    RoundMagNearest(D, a, 1);
    assert Dist(D, a, 1, r) <= Dist(D, a, 1, b);
    if r < b {
      UnitsMono(D, r, b);
      if r < b - 1 {
        UnitsMono(D, r, b - 1);
      }
    } else if b < r {
      UnitsMono(D, b, r);
    }
  }

  /** z has the magnitude that roundTiesToEven gives for a / d units, infinity beyond the finite range. */
  ghost predicate Rounded(z: Double, a: nat, d: nat) {
    exists r: nat :: IsNearestEven(D52, a, d, r) && z.Mag() == if r < INF then r else INF
  }

  lemma {:induction false} RoundDoubleRounds(negative: bool, a: nat, d: nat)
    requires d > 0
    ensures var z := RoundDouble(negative, a, d); Rounded(z, a, d) && z.Negative() == negative
  {
    hide IsNearestEven, RoundMag;
    RoundMagNearest(D52, a, d);
  }

  /** Addition is the exact sum, rounded once; only an exact zero has a sign of its own. */
  lemma {:induction false} AddRounds(x: Double, y: Double)
    requires x.Finite() && y.Finite()
    ensures var z, v := FAdd(x, y), x.Value() + y.Value();
      && Rounded(z, if v < 0 then -v else v, 1)
      && z.Negative() == if v == 0 then x.Negative() && y.Negative() else v < 0
  {
    hide IsNearestEven, RoundMag, Units, RoundDouble;
    var v := x.Value() + y.Value();
    if v == 0 {
      ZeroUnits();
      RoundExact(D52, 0, 1, 0);
      RoundMagNearest(D52, 0, 1);
    } else {
      RoundDoubleRounds(v < 0, if v < 0 then -v else v, 1);
    }
  }

  /** The product of the magnitudes, counted in 2^-2148, and the number of these in a unit. */
  function Product(x: Double, y: Double): nat {
    MulMono(0, Units(D52, x.Mag()), Units(D52, y.Mag()));
    Units(D52, x.Mag()) * Units(D52, y.Mag())
  }

  function ProductsPerUnit(): (d: nat)
    ensures d > 0
  {
    Pow2(UNIT)
  }

  /** Multiplication is the exact product, rounded once. */
  lemma {:induction false} MulRounds(x: Double, y: Double)
    requires x.Finite() && y.Finite()
    ensures var z := FMul(x, y);
      Rounded(z, Product(x, y), ProductsPerUnit()) && z.Negative() == (x.Negative() != y.Negative())
  {
    hide Units, RoundDouble, Rounded, Pow2;
    RoundDoubleRounds(x.Negative() != y.Negative(), Product(x, y), ProductsPerUnit());
  }

  /** `one - tiny` and `one + tiny` are 1.0 under round-to-nearest. */
  lemma {:induction false} InexactProbe()
    ensures FSub(ONE, TINY) == ONE && FAdd(ONE, TINY) == ONE
  {
    hide Units, RoundMag, Pow2;
    var b, t := ONE.Mag(), TINY.Mag();
    assert b == 0x3FE * D52 + D52 && b == 0x3FD * D52 + (2 * D52 - 1) + 1;
    UnitsStep(D52, 0x3FE, D52);
    UnitsStep(D52, 0x3FD, 2 * D52 - 1);
    Pow2Mono(0x3FD, 0x3FE);
    TinyUnits();
    RoundNearby(D52, Units(D52, b) + Units(D52, t), b);
    RoundNearby(D52, Units(D52, b) - Units(D52, t), b);
    SameDouble(FSub(ONE, TINY), ONE);
    SameDouble(FAdd(ONE, TINY), ONE);
  }

  /** tiny is far below half an ulp of 1.0. */
  lemma {:induction false} TinyUnits()
    ensures 0 < Units(D52, TINY.Mag()) && 2 * Units(D52, TINY.Mag()) < Pow2(0x3FD)
  {
    var t := TINY.Mag();
    assert t / D52 == 26;
    var k, m := Split(D52, t);
    assert k == 25;
    Pow2Mono(54 + 25, 0x3FC);
    Pow2Add(54, 25);
    Pow2Table();
    MulMono(m, Pow2(54), Pow2(25));
    MulGe(m, Pow2(25));
  }

  /** A positive value of at least one unit does not round to zero. */
  lemma {:induction false} RoundPositive(a: nat)
    requires a > 0
    ensures RoundMag(D52, a, 1) > 0
  {
    hide RoundMag;
    RoundMagNearest(D52, a, 1);
    var r := RoundMag(D52, a, 1);
    assert Dist(D52, a, 1, r) <= Dist(D52, a, 1, 1);
  }

  /** `huge + x > 0.0` holds for every x with |x| < 2^53. */
  lemma {:induction false} HugeProbe(x: Double)
    requires x.Mag() / D52 < 0x3FF + 53
    ensures x.Finite() && FAdd(HUGE, x).Value() > 0
  {
    hide Units, RoundMag;
    assert x.Mag() < HUGE.Mag();
    UnitsMono(D52, x.Mag(), HUGE.Mag());
    var n := HUGE.Value() + x.Value();
    RoundPositive(n);
    var z := FAdd(HUGE, x);
    assert z.Mag() > 0;
    UnitsMono(D52, 0, z.Mag());
  }

  /** Every n * 2^k with 0 < n <= 2^53 has a pattern. */
  lemma {:induction false} Representable(n: nat, k: nat) returns (b: nat)
    requires 0 < n <= 2 * D52
    ensures Units(D52, b) == n * Pow2(k)
    decreases k
  {
    hide Units;
    if n >= D52 || k == 0 {
      b := k * D52 + n;
      UnitsAt(D52, k, n);
    } else {
      b := Representable(2 * n, k - 1);
      MulAssoc(n, 2, Pow2(k - 1));
    }
  }

  lemma {:induction false} ZeroUnits()
    ensures Units(D52, 0) == 0
  {
  }
}
