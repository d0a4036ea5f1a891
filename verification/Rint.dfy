/** freebsd_rint: the nearest integral value, ties to even, by adding and subtracting 2^52. */
module Rint {
  import opened Words
  import opened Ieee
  import opened Doubles
  import opened Integral

  /** TWO52[sx]. */
  function Two52(sx: bool): Double {
    if sx then Double(0xC330_0000, 0) else Double(0x4330_0000, 0)
  }

  /** The integral value nearest to u units, ties to even. */
  function NearestWhole(u: nat): nat {
    RneDiv(u, Whole())
  }

  // ----- adding and subtracting 2^52 -----

  /** Adding an even number of whole steps commutes with rounding. */
  lemma {:induction false} RneShift(c: nat, u: nat, d: nat)
    requires d > 0 && c % 2 == 0
    ensures RneDiv(c * d + u, d) == c + RneDiv(u, d)
  {
    hide RneDiv;
    var n := RneDiv(u, d);
    RneDivSpec(u, d);
    MulAdd(c, n, d);
    RneDivUnique(c * d + u, d, c + n);
  }

  /** In the binade of 2^52 the spacing of doubles is one. */
  lemma {:induction false} ScaleAt(a: nat, W: nat)
    requires W == Whole() && D52 * W <= a < 2 * D52 * W
    ensures Scale(D52, a, 1) == UNIT
  {
    hide Scale, Pow2;
    var k := Scale(D52, a, 1);
    ScaleSpec(D52, a, 1);
    if k < UNIT {
      Pow2Mono(k, UNIT);
    } else if k > UNIT {
      Pow2Mono(UNIT, k);
    }
  }

  lemma {:induction false} RoundAtTwo52(u: nat)
    requires u < D52 * Whole()
    ensures var n := NearestWhole(u); var r := RoundMag(D52, D52 * Whole() + u, 1);
      n <= D52 && r == UNIT * D52 + D52 + n && Units(D52, r) == (D52 + n) * Whole()
  {
    hide Scale, Pow2, RneDiv, Units;
    var W := Whole();
    var n := NearestWhole(u);
    var a := D52 * W + u;
    ScaleAt(a, W);
    RneShift(D52, u, W);
    RneDivSpec(u, W);
    if n > D52 {
      MulMono(D52 + 1, n, W);
      MulAdd(D52, 1, W);
    }
    UnitsAt(D52, UNIT, D52 + n);
  }

  lemma {:induction false} Two52Value(sx: bool)
    ensures Two52(sx).Negative() == sx && Two52(sx).Finite()
    ensures Units(D52, Two52(sx).Mag()) == D52 * Whole()
  {
    hide Units, Pow2;
    UnitsAt(D52, UNIT, D52);
  }

  /** w = TWO52[sx] + x; t = w - TWO52[sx]: the sum rounds to whole units and the difference is
      exact. */
  lemma {:induction false} AddSubTwo52(sx: bool, x: Double)
    requires x.Negative() == sx && x.Finite() && Units(D52, x.Mag()) < D52 * Whole()
    ensures var w := FAdd(Two52(sx), x); w.Finite()
    ensures var w := FAdd(Two52(sx), x); var t := FSub(w, Two52(sx)); var n := NearestWhole(Units(D52, x.Mag()));
      t.Finite() && Units(D52, t.Mag()) == n * Whole() && (n > 0 ==> t.Negative() == sx)
  {
    hide Units, Whole, RoundMag, NearestWhole;
    var W := Whole();
    var u := Units(D52, x.Mag());
    var n := NearestWhole(u);
    Two52Value(sx);
    RoundAtTwo52(u);
    var w := FAdd(Two52(sx), x);
    assert w.Negative() == sx && Units(D52, w.Mag()) == (D52 + n) * W;
    MulAdd(D52, n, W);
    MulMono(0, n, W);
    var t := FSub(w, Two52(sx));
    if n == 0 {
      ZeroUnits();
    } else {
      MulGe(n, W);
      ExactDifference(n);
    }
  }

  lemma {:induction false} ExactDifference(n: nat)
    requires 0 < n <= D52
    ensures var r := RoundMag(D52, n * Whole(), 1); r < INF && Units(D52, r) == n * Whole()
  {
    hide Units, RoundMag, Pow2;
    var b := Representable(n, UNIT);
    RoundExact(D52, n * Whole(), 1, b);
    UnitsAt(D52, UNIT, D52);
    MulMono(n, D52, Whole());
    if b >= INF {
      UnitsMono(D52, UNIT * D52 + D52, b);
    }
  }

  // ----- the guard bits -----

  /** Scaling numerator and denominator does not change the rounding. */
  lemma {:induction false} RneScale(m: nat, F: nat, g: nat)
    requires F > 0 && g > 0
    ensures F * g > 0 && RneDiv(m * g, F * g) == RneDiv(m, F)
  {
    var q, r := DivModDef(m, F);
    MulGe(F, g);
    MulAdd(q * F, r, g);
    MulAssoc(q, F, g);
    MulMono(0, r, g);
    MulLess(r, F, g);
    DivModUnique(m * g, F * g, q, r * g);
    MulAssoc(2, r, g);
    MulLess(2 * r, F, g);
  }

  lemma {:induction false} MulLess(a: int, b: int, g: int)
    requires g > 0
    ensures a < b <==> a * g < b * g
    ensures a == b <==> a * g == b * g
  {
    if a < b {
      MulMono(a + 1, b, g);
      MulAdd(a, 1, g);
    } else if b < a {
      MulMono(b + 1, a, g);
      MulAdd(b, 1, g);
    }
  }

  /** Only the bits from the half bit upwards, and whether anything is set below it, matter. */
  lemma {:induction false} RneSticky(m: nat, m': nat, h: nat)
    requires h > 0 && m / h == m' / h && (m % h == 0 <==> m' % h == 0)
    ensures RneDiv(m, 2 * h) == RneDiv(m', 2 * h)
  {
    var c, r := DivModDef(m, h);
    var c', r' := DivModDef(m', h);
    StickyParts(m, h, c, r);
    StickyParts(m', h, c', r');
  }

  lemma {:induction false} StickyParts(m: nat, h: nat, c: nat, r: nat)
    requires h > 0 && m == c * h + r && r < h
    ensures RneDiv(m, 2 * h) ==
      c / 2 + if c % 2 == 1 && (r > 0 || c / 2 % 2 == 1) then 1 else 0
  {
    var q, b := c / 2, c % 2;
    MulAdd(2 * q, b, h);
    MulTwo(q, h);
    DivModUnique(m, 2 * h, q, b * h + r);
  }

  /** Replacing the bits below the half bit by others that are not all zero leaves rint alone. */
  lemma {:induction false} SameRint(b: nat, e: nat, j: nat)
    requires j <= 51 && b / D52 == 0x3FF + j && Low(b, 51 - j) != 0 && 0 < e < Pow2(51 - j)
    ensures var b' := b - Low(b, 51 - j) + e;
      b' / D52 == 0x3FF + j && NearestWhole(Units(D52, b')) == NearestWhole(Units(D52, b))
  {
    hide Units, Pow2, RneDiv, Low, Shr;
    var b', h, W := b - Low(b, 51 - j) + e, Pow2(51 - j), Whole();
    ReplaceLow(b, 51 - j, e);
    ShrIsDiv(b, 51 - j);
    ShrIsDiv(b', 51 - j);
    var c := Pow2(j + 1);
    assert c * h == D52 by {
      Pow2Add(j + 1, 51 - j);
      Pow2Table();
    }
    DivDiv(b, h, c);
    DivDiv(b', h, c);
    assert h * c == D52;
    var k, m := Split(D52, b);
    var k', m' := Split(D52, b');
    var g, F := Pow2(k), Pow2(52 - j);
    assert F == 2 * h by {
      Pow2Succ(51 - j);
    }
    assert F * g == W by {
      Pow2Add(52 - j, k);
    }
    MantissaPart(b, k, m, c, h);
    MantissaPart(b', k, m', c, h);
    RneSticky(m, m', h);
    RneScale(m, F, g);
    RneScale(m', F, g);
  }

  /** b = k D + m and D = c h: the low bits of b and m agree, the others differ by a constant. */
  lemma {:induction false} MantissaPart(b: nat, k: nat, m: nat, c: nat, h: nat)
    requires h > 0 && c * h == D52 && b == k * D52 + m
    ensures b % h == m % h && b / h == k * c + m / h
  {
    var q, r := DivModDef(m, h);
    MulAdd(k * c, q, h);
    MulAssoc(k, c, h);
    DivModUnique(b, h, k * c + q, r);
  }

  /** z is x with the bits below its half bit replaced by e. */
  ghost predicate Guarded(x: Double, z: Double, j: nat, e: nat)
    requires j <= 51
  {
    && z.Negative() == x.Negative()
    && z.Mag() == x.Mag() - Low(x.Mag(), 51 - j) + e && 0 < e < Pow2(51 - j)
  }

  /** The bits below the half bit, in terms of the words. */
  lemma {:induction false} StickyHigh(x: Double, j: nat)
    requires j < 20
    ensures j < 19 ==> Low(x.Mag(), 51 - j) == Low(x.hi, 19 - j) * 0x1_0000_0000 + x.lo
    ensures j < 19 ==> Low(x.hi, 19 - j) <= x.hi % 0x8000_0000
    ensures j == 19 ==> Low(x.Mag(), 51 - j) == x.lo
    ensures Or(And(x.hi, Shr(Shr(0x000F_FFFF, j), 1)), x.lo) == 0 <==> Low(x.Mag(), 51 - j) == 0
    ensures And(x.hi, Not(Shr(Shr(0x000F_FFFF, j), 1))) == x.hi - Low(x.hi, 19 - j)
  {
    hide Low, Shr, Pow2, And, Or;
    HighMask(j);
    ShrMask(20 - j, 1);
    AndLow(x.hi, 19 - j);
    AndHigh(x.hi, 19 - j);
    if j < 19 {
      FractionHigh(x, j + 1);
    } else {
      FractionLow(x, 20);
      assert Pow2(32) == 0x1_0000_0000 && Pow2(0) == 1 by {
        Pow2Table();
      }
      LowId(x.lo, 32);
    }
  }

  /** 0x20000 >> j0, an eighth. */
  lemma {:induction false} Eighth(j: nat)
    requires j < 18
    ensures Shr(0x0002_0000, j) == Pow2(17 - j) && 4 * Pow2(17 - j) == Pow2(19 - j) <= 0x8_0000
    ensures Pow2(51 - j) == Pow2(19 - j) * 0x1_0000_0000
  {
    hide Shr, Pow2;
    assert Pow2(16) == 0x1_0000 && Pow2(19) == 0x8_0000 && Pow2(32) == 0x1_0000_0000 by {
      Pow2Table();
    }
    Pow2Succ(16);
    ShrMask(17, j);
    Pow2Succ(17 - j);
    Pow2Succ(18 - j);
    Pow2Mono(19 - j, 19);
    Pow2Add(19 - j, 32);
  }

  /** Lines 925 to 940: some bit is set below the half bit of a double with j0 < 20. */
  method GuardHigh(x: Double, j: nat) returns (z: Double, ghost e: nat)
    requires j < 20 && x.Finite()
    ensures Guarded(x, z, j, e)
  {
    hide Low, Shr, Pow2, And, Or, Not;
    StickyHigh(x, j);
    var i := Shr(Shr(0x000F_FFFF, j), 1);
    if j == 19 {
      z := Double(x.hi, 0x4000_0000);
      e := 0x4000_0000;
      assert Pow2(32) == 0x1_0000_0000 by {
        Pow2Table();
      }
    } else if j == 18 {
      z := Double(x.hi, 0x8000_0000);
      e := Low(x.hi, 1) * 0x1_0000_0000 + 0x8000_0000;
      assert Pow2(1) == 2 && Pow2(33) == 0x2_0000_0000 by {
        Pow2Table();
        Pow2Succ(32);
      }
    } else {
      Eighth(j);
      ghost var r := Low(x.hi, 19 - j);
      HighTop(x);
      KeepSign(x.hi, r, Pow2(17 - j));
      OrEighth(x.hi, j);
      z := Double(Or(And(x.hi, Not(i)), Shr(0x0002_0000, j)), x.lo);
      e := Pow2(17 - j) * 0x1_0000_0000 + x.lo;
      HighEdit(x, z, r, Pow2(17 - j));
    }
  }

  lemma {:induction false} OrEighth(w: word, j: nat)
    requires j < 18
    ensures Or(w - Low(w, 19 - j), Pow2(17 - j)) == w - Low(w, 19 - j) + Pow2(17 - j)
  {
    hide Or, Low, Pow2, Shr, Shl;
    ShrLow(w, 19 - j);
    Eighth(j);
    OrDisjoint(Shr(w, 19 - j), 19 - j, Pow2(17 - j));
  }

  lemma {:induction false} StickyLow(x: Double, j: nat)
    requires 20 <= j <= 51
    ensures Low(x.Mag(), 51 - j) == Low(x.lo, 51 - j)
    ensures j == 51 ==> Low(x.lo, 51 - j) == 0
    ensures Shr(Shr(0xFFFF_FFFF, j - 20), 1) < 0x1_0000_0000
    ensures And(x.lo, Shr(Shr(0xFFFF_FFFF, j - 20), 1)) == Low(x.lo, 51 - j)
    ensures And(x.lo, Not(Shr(Shr(0xFFFF_FFFF, j - 20), 1))) == x.lo - Low(x.lo, 51 - j)
  {
    hide Low, Shr, Pow2, And;
    LowMask(j);
    ShrMask(52 - j, 1);
    AndLow(x.lo, 51 - j);
    AndHigh(x.lo, 51 - j);
    if j < 51 {
      FractionLow(x, j + 1);
    } else {
      assert Pow2(0) == 1 by {
        Pow2Table();
      }
    }
  }

  /** Lines 951 to 953: some bit is set below the half bit of a double with j0 >= 20. */
  method GuardLow(x: Double, j: nat) returns (z: Double, ghost e: nat)
    requires 20 <= j <= 50 && x.Finite()
    ensures Guarded(x, z, j, e)
  {
    hide Low, Shr, Pow2, And, Or, Not;
    StickyLow(x, j);
    QuarterLow(x.lo, j);
    var i := Shr(Shr(0xFFFF_FFFF, j - 20), 1);
    z := Double(x.hi, Or(And(x.lo, Not(i)), Shr(0x4000_0000, j - 20)));
    e := Pow2(50 - j);
  }

  lemma {:induction false} QuarterLow(w: word, j: nat)
    requires 20 <= j <= 50
    ensures Shr(0x4000_0000, j - 20) == Pow2(50 - j) && 2 * Pow2(50 - j) == Pow2(51 - j)
    ensures Or(w - Low(w, 51 - j), Pow2(50 - j)) == w - Low(w, 51 - j) + Pow2(50 - j) < 0x1_0000_0000
  {
    hide Or, Low, Pow2, Shr, Shl;
    assert Pow2(30) == 0x4000_0000 && Pow2(32) == 0x1_0000_0000 by {
      Pow2Table();
      Pow2Succ(30);
    }
    ShrMask(30, j - 20);
    Pow2Succ(50 - j);
    ShrLow(w, 51 - j);
    OrDisjoint(Shr(w, 51 - j), 51 - j, Pow2(50 - j));
    Pow2Mono(51 - j, 31);
    Pow2Mono(31, 32);
    OrBound(w - Low(w, 51 - j), Pow2(50 - j), 32);
  }

  // ----- below one -----

  /** A magnitude below one rounds to one exactly when its pattern lies above that of one half. */
  lemma {:induction false} SmallRint(b: nat)
    requires b / D52 < 0x3FF
    ensures NearestWhole(Units(D52, b)) == if b > 0x3FE * D52 then 1 else 0
  {
    hide Units, Pow2, RneDiv;
    var half, u, W := 0x3FE * D52, Units(D52, b), Whole();
    BelowOne(b);
    UnitsAt(D52, 0x3FD, D52);
    UnitsAt(D52, 0x3FE, D52);
    Pow2Succ(0x3FD);
    assert 2 * Units(D52, half) == W;
    if b > half {
      UnitsMono(D52, half, b);
      RneDivUnique(u, W, 1);
    } else {
      if b < half {
        UnitsMono(D52, b, half);
      }
      RneDivUnique(u, W, 0);
    }
  }

  /** `-w` on a 32-bit word. */
  function Minus(w: word): word {
    ToWord(0x1_0000_0000 - w)
  }

  /** `((i1 | -i1) >> 12) & 0x80000`: bit 19 when i1 is not zero. */
  lemma {:induction false} AnyBit(w: word)
    ensures Or(w, Minus(w)) < 0x1_0000_0000
    ensures And(Shr(Or(w, Minus(w)), 12), 0x8_0000) == if w == 0 then 0 else 0x8_0000
  {
    hide And, Shr, Or, Pow2, Low;
    assert Pow2(12) == 0x1000 && Pow2(19) == 0x8_0000 && Pow2(32) == 0x1_0000_0000 by {
      Pow2Table();
    }
    var v := Or(w, Minus(w));
    OrBound(w, Minus(w), 32);
    assert if w == 0 then v == 0 else v >= 0x8000_0000;
    ShrIsDiv(v, 12);
    BitAt(v / 0x1000, 19);
    assert v / 0x1000 / 0x8_0000 == v / 0x8000_0000;
  }

  /** Lines 911 to 913: the sign and exponent stay, and the fraction stays zero or nonzero. */
  method CollectBits(x: Double) returns (z: Double)
    ensures z.Negative() == x.Negative() && z.Mag() / D52 == x.Mag() / D52
    ensures z.Mag() % D52 == 0 <==> x.Mag() % D52 == 0
  {
    hide And, Or, Shr, Minus;
    LowFraction(x.hi, x.lo);
    var i1: word := Or(x.lo, And(x.hi, 0x000F_FFFF));
    AnyBit(i1);
    TopBits(x.hi, i1 != 0);
    var i0: word := Or(And(x.hi, 0xFFFE_0000), And(Shr(Or(i1, Minus(i1)), 12), 0x8_0000));
    z := Double(i0, x.lo);
    SameFields(x, z);
  }

  lemma {:induction false} SameFields(x: Double, z: Double)
    requires z.hi / 0x10_0000 == x.hi / 0x10_0000 && z.lo == x.lo
    requires x.hi % 0x10_0000 == 0 && x.lo == 0 ==> z.hi % 0x10_0000 == 0
    requires x.hi % 0x10_0000 != 0 || x.lo != 0 ==> z.hi % 0x10_0000 != 0
    ensures z.Negative() == x.Negative() && z.Mag() / D52 == x.Mag() / D52
    ensures z.Mag() % D52 == 0 <==> x.Mag() % D52 == 0
  {
    Fields(x);
    Fields(z);
  }

  lemma {:induction false} LowFraction(hi: word, lo: word)
    ensures And(hi, 0x000F_FFFF) == hi % 0x10_0000
    ensures Or(lo, And(hi, 0x000F_FFFF)) < 0x1_0000_0000
  {
    hide And, Or, Shr, Low, Pow2;
    assert Pow2(20) == 0x10_0000 && Pow2(32) == 0x1_0000_0000 by {
      Pow2Table();
    }
    AndLow(hi, 20);
    ShrIsDiv(hi, 20);
    OrBound(lo, hi % 0x10_0000, 32);
  }

  /** `(i0 & 0xfffe0000) | flag` touches nothing above bit 19. */
  lemma {:induction false} TopBits(hi: word, any: bool)
    ensures var t := Or(And(hi, 0xFFFE_0000), if any then 0x8_0000 else 0);
      && t / 0x10_0000 == hi / 0x10_0000 && t < 0x1_0000_0000
      && (any ==> t % 0x10_0000 > 0)
      && (!any && hi % 0x10_0000 == 0 ==> t % 0x10_0000 == 0)
  {
    hide And, Or, Pow2, Shl;
    var flag, a, c := if any then 0x8_0000 else 0, hi / 0x10_0000, hi % 0x10_0000;
    assert Pow2(20) == 0x10_0000 by {
      Pow2Table();
    }
    ClearLow17(hi);
    var c' := c - c % 0x2_0000;
    ShlIsMul(a, 20);
    OrBelow(a, 20, c', flag);
    OrBound(c', flag, 20);
    DivModUnique(a * 0x10_0000 + Or(c', flag), 0x10_0000, a, Or(c', flag));
  }

  lemma {:induction false} ClearLow17(w: word)
    ensures var a, c := w / 0x10_0000, w % 0x10_0000;
      And(w, 0xFFFE_0000) == a * 0x10_0000 + (c - c % 0x2_0000)
  {
    hide And, Shr, Low, Pow2;
    var a, c := w / 0x10_0000, w % 0x10_0000;
    assert Pow2(17) == 0x2_0000 by {
      Pow2Table();
      Pow2Succ(16);
    }
    AndHigh(w, 17);
    ShrIsDiv(w, 17);
    DivModUnique(w, 0x2_0000, 8 * a + c / 0x2_0000, c % 0x2_0000);
  }

  lemma {:induction false} AboveHalf(b: nat)
    ensures b > 0x3FE * D52 <==> b / D52 > 0x3FE || (b / D52 == 0x3FE && b % D52 != 0)
  {
  }

  lemma {:induction false} SmallSame(x: Double, x': Double)
    requires x.Mag() / D52 < 0x3FF && x'.Mag() / D52 == x.Mag() / D52
    requires x'.Mag() % D52 == 0 <==> x.Mag() % D52 == 0
    ensures x'.Finite() && Units(D52, x'.Mag()) < D52 * Whole()
    ensures NearestWhole(Units(D52, x'.Mag())) == NearestWhole(Units(D52, x.Mag()))
  {
    hide Units, NearestWhole, Whole;
    AboveHalf(x.Mag());
    AboveHalf(x'.Mag());
    SmallRint(x.Mag());
    SmallRint(x'.Mag());
    BelowOne(x'.Mag());
  }

  /** Lines 917 to 918: t with the sign of x. */
  method SetSignBit(t: Double, sx: bool) returns (z: Double)
    ensures z.Negative() == sx && z.Mag() == t.Mag()
  {
    hide And, Or;
    PutSign(t.hi, sx);
    z := Double(Or(And(t.hi, 0x7FFF_FFFF), if sx then 0x8000_0000 else 0), t.lo);
  }

  /** Lines 908 to 919: |x| < 1. */
  method RintSmall(x: Double) returns (z: Double)
    requires x.Mag() / D52 < 0x3FF && x.Mag() > 0
    ensures z.Finite() && z.Negative() == x.Negative()
    ensures Units(D52, z.Mag()) == NearestWhole(Units(D52, x.Mag())) * Whole()
  {
    hide Units, NearestWhole, Whole, FAdd, FSub;
    var sx := x.Negative();
    var x' := CollectBits(x);
    SmallSame(x, x');
    AddSubTwo52(sx, x');
    var w := FAdd(Two52(sx), x');
    var t := FSub(w, Two52(sx));
    z := SetSignBit(t, sx);
  }

  /** Doubles below 2^52 in magnitude. */
  lemma {:induction false} BelowTwo52(b: nat)
    requires b / D52 < 0x3FF + 52
    ensures Units(D52, b) < D52 * Whole()
  {
    hide Units, Pow2;
    UnitsAt(D52, UNIT, D52);
    UnitsMono(D52, b, UNIT * D52 + D52);
  }

  /** A magnitude of at least one does not round to zero. */
  lemma {:induction false} AtLeastOne(b: nat)
    requires b / D52 >= 0x3FF
    ensures NearestWhole(Units(D52, b)) > 0
  {
    hide Units, Pow2, RneDiv;
    var u := Units(D52, b);
    BelowOne(0);
    if b > 0x3FF * D52 {
      UnitsMono(D52, 0x3FF * D52, b);
    }
    RneDivSpec(u, Whole());
  }

  /** Lines 921 to 957 for 1 <= |x| < 2^52 with a fraction. */
  method RintMiddle(x: Double, j0: nat) returns (z: Double)
    requires j0 <= 51 && x.Mag() / D52 == 0x3FF + j0
    ensures z.Finite() && z.Negative() == x.Negative()
    ensures Units(D52, z.Mag()) == NearestWhole(Units(D52, x.Mag())) * Whole()
  {
    hide Units, NearestWhole, Whole, And, Or, Shr, Low, FAdd, FSub, Pow2;
    var sx := x.Negative();
    assert x.Finite();
    var x' := x;
    if j0 < 20 {
      StickyHigh(x, j0);
      if Or(And(x.hi, Shr(Shr(0x000F_FFFF, j0), 1)), x.lo) != 0 {
        ghost var e;
        x', e := GuardHigh(x, j0);
        SameRint(x.Mag(), e, j0);
      }
    } else {
      StickyLow(x, j0);
      if And(x.lo, Shr(Shr(0xFFFF_FFFF, j0 - 20), 1)) != 0 {
        ghost var e;
        x', e := GuardLow(x, j0);
        SameRint(x.Mag(), e, j0);
      }
    }
    BelowTwo52(x'.Mag());
    AtLeastOne(x'.Mag());
    AddSubTwo52(sx, x');
    var w := FAdd(Two52(sx), x');
    z := FSub(w, Two52(sx));
  }

  /** freebsd_rint. */
  method RintDouble(x: Double) returns (z: Double)
    ensures x.IsNaN() ==> z.IsNaN()
    ensures x.IsInf() ==> z == x
    ensures x.Finite() ==> z.Finite() && z.Negative() == x.Negative()
    ensures x.Finite() ==> Units(D52, z.Mag()) == NearestWhole(Units(D52, x.Mag())) * Whole()
  {
    hide Units, NearestWhole, Whole, Exponent, And, Or, Shr, Low;
    ExponentField(x);
    var j0 := Exponent(x);
    z := x;
    if j0 < 20 {
      if j0 < 0 {
        MagZero(x);
        if Or(And(x.hi, 0x7FFF_FFFF), x.lo) == 0 {
          ZeroRint();
          return;
        }
        z := RintSmall(x);
        return;
      }
      WholeTest(x, j0);
      if Or(And(x.hi, Shr(0x000F_FFFF, j0)), x.lo) == 0 {
        WholeRint(x);
        return;
      }
    } else if j0 > 51 {
      if x.Finite() {
        WholeRint(x);
      }
      return;
    } else {
      WholeTest(x, j0);
      if And(x.lo, Shr(0xFFFF_FFFF, j0 - 20)) == 0 {
        WholeRint(x);
        return;
      }
    }
    z := RintMiddle(x, j0);
  }

  lemma {:induction false} ZeroRint()
    ensures Units(D52, 0) == 0 && NearestWhole(Units(D52, 0)) == 0
  {
    hide Pow2;
    DivModUnique(0, Whole(), 0, 0);
  }

  lemma {:induction false} WholeRint(x: Double)
    requires x.Finite() && x.Mag() / D52 >= 0x3FF
    requires x.Mag() / D52 <= 0x3FF + 51 ==> Low(x.Mag(), 52 - (x.Mag() / D52 - 0x3FF)) == 0
    ensures Units(D52, x.Mag()) == NearestWhole(Units(D52, x.Mag())) * Whole()
  {
    hide Units, Low, Pow2;
    var b := x.Mag();
    var e := b / D52;
    var u, W := Units(D52, b), Whole();
    if e <= 0x3FF + 51 {
      FractionBits(b, e - 0x3FF);
    } else {
      AboveFraction(b);
    }
    DivModUnique(u, W, u / W, 0);
  }
}
