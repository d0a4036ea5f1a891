/** Rounding a double to an integral value by editing its words: floor, ceil and trunc. */
module Integral {
  import opened Words
  import opened Ieee
  import opened Doubles

  /** 1.0 in units. */
  function Whole(): (w: int)
    ensures w > 0
  {
    Pow2(UNIT)
  }

  /** The largest and the smallest integral value on either side, in units. */
  function Floor(v: int): int {
    v / Whole() * Whole()
  }

  function Ceil(v: int): int {
    -Floor(-v)
  }

  // ----- where the fraction bits are -----

  /** With exponent field 0x3FF + j, 0 <= j <= 51, the last 52 - j bits of a pattern are its
      fraction: clearing them truncates, and adding one above them gives the next integer, also
      when the carry reaches the exponent field. */
  lemma {:induction false} FractionBits(b: nat, j: nat)
    requires j <= 51 && b / D52 == 0x3FF + j
    ensures var f := Low(b, 52 - j); var u := Units(D52, b); var q := u / Whole();
      && Units(D52, b - f) == q * Whole()
      && Units(D52, b - f + Pow2(52 - j)) == (q + 1) * Whole()
      && (f == 0 <==> u == q * Whole())
  {
    hide Units, Pow2, Low;
    var k, m, n, r := FractionSplit(b, j);
    var F := Pow2(52 - j);
    assert b - r == k * D52 + (m - r);
    UnitsAt(D52, k, m - r);
    assert b - r + F == k * D52 + (m - r + F);
    UnitsAt(D52, k, m - r + F);
    ScaledParts(m, n, r, F, Pow2(k), Whole());
  }

  /** Mantissa and exponent of such a pattern, and the mantissa's integral part n and fraction r. */
  lemma {:induction false} FractionSplit(b: nat, j: nat) returns (k: nat, m: nat, n: nat, r: nat)
    requires j <= 51 && b / D52 == 0x3FF + j
    ensures b == k * D52 + m && k > 0 && Units(D52, b) == m * Pow2(k)
    ensures var F := Pow2(52 - j);
      && F * Pow2(k) == Whole() && m == n * F + r && r < F && Low(b, 52 - j) == r
      && D52 <= m - r && m - r + F <= 2 * D52
  {
    hide Units, Pow2, Low;
    var F, c := Pow2(52 - j), Pow2(j);
    k, m := Split(D52, b);
    assert F * Pow2(k) == Whole() by {
      Pow2Add(52 - j, k);
    }
    assert c * F == D52 by {
      Pow2Add(j, 52 - j);
      Pow2Table();
    }
    n, r := DivModDef(m, F);
    assert b == (k * c + n) * F + r by {
      MulAdd(k * c, n, F);
      MulAssoc(k, c, F);
    }
    DivModUnique(b, F, k * c + n, r);
    ShrIsDiv(b, 52 - j);
    MultipleBetween(n, r, c, F, m);
  }

  /** m = n F + r in steps of g, with F g = W. */
  lemma {:induction false} ScaledParts(m: nat, n: nat, r: nat, F: nat, g: nat, W: nat)
    requires g > 0 && W > 0 && F * g == W && m == n * F + r && r < F
    ensures m * g / W == n && (r == 0 <==> m * g == n * W)
    ensures (m - r) * g == n * W && (m - r + F) * g == (n + 1) * W
  {
    assert (m - r) * g == n * W by {
      MulAssoc(n, F, g);
    }
    assert (m - r + F) * g == (n + 1) * W by {
      MulAdd(m - r, F, g);
      MulAdd(n, 1, W);
    }
    assert m * g == n * W + r * g by {
      MulAdd(m - r, r, g);
    }
    assert 0 <= r * g < W by {
      MulMono(0, r, g);
      MulMono(r + 1, F, g);
      MulAdd(r, 1, g);
    }
    DivModUnique(m * g, W, n, r * g);
    if r > 0 {
      MulGe(r, g);
    }
  }

  lemma {:induction false} MultipleBetween(n: nat, r: nat, c: nat, F: nat, m: nat)
    requires m == n * F + r && r < F && c * F <= m < 2 * (c * F)
    ensures c * F <= m - r && m - r + F <= 2 * (c * F)
  {
    if n < c {
      MulMono(n + 1, c, F);
      MulAdd(n, 1, F);
    } else {
      MulMono(c, n, F);
      if n >= 2 * c {
        MulMono(2 * c, n, F);
        MulAssoc(2, c, F);
      } else {
        MulMono(n + 1, 2 * c, F);
        MulAdd(n, 1, F);
        MulAssoc(2, c, F);
      }
    }
  }

  /** Below exponent 0x3FF the value is less than one. */
  lemma {:induction false} BelowOne(b: nat)
    requires b / D52 < 0x3FF
    ensures Units(D52, b) < Whole()
    ensures Units(D52, 0x3FF * D52) == Whole()
    ensures b > 0 ==> Units(D52, b) > 0
  {
    hide Units, Pow2;
    assert Pow2(52) == D52 by {
      Pow2Table();
    }
    Pow2Add(52, 0x3FE);
    UnitsAt(D52, 0x3FE, D52);
    UnitsMono(D52, b, 0x3FF * D52);
    if b > 0 {
      UnitsMono(D52, 0, b);
    }
  }

  /** From exponent 0x3FF + 52 on every value is integral. */
  lemma {:induction false} AboveFraction(b: nat)
    requires b / D52 >= 0x3FF + 52
    ensures Units(D52, b) == Units(D52, b) / Whole() * Whole()
  {
    hide Units, Pow2;
    var k, m := Split(D52, b);
    Pow2Add(k - UNIT, UNIT);
    MulAssoc(m, Pow2(k - UNIT), Whole());
    DivModUnique(Units(D52, b), Whole(), m * Pow2(k - UNIT), 0);
  }

  // ----- the edits on words -----

  /** `((i0 >> 20) & 0x7ff) - 0x3ff`. */
  function Exponent(x: Double): int {
    And(Shr(x.hi, 20), 0x7FF) - 0x3FF
  }

  lemma {:induction false} ExponentField(x: Double)
    ensures Exponent(x) == x.Mag() / D52 - 0x3FF
    ensures -0x3FF <= Exponent(x) <= 0x400
    ensures x.Finite() <==> Exponent(x) < 0x400
  {
    hide And, Shr, Low, Pow2;
    assert Pow2(20) == 0x10_0000 && Pow2(11) == 0x800 by {
      Pow2Table();
    }
    ShrIsDiv(x.hi, 20);
    var e := x.hi / 0x10_0000;
    AndLow(e, 11);
    ShrIsDiv(e, 11);
    Fields(x);
  }

  /** The mask 0x000fffff >> j0 and the step 0x00100000 >> j0. */
  lemma {:induction false} HighMask(j: nat)
    requires j < 20
    ensures 2 <= Pow2(20 - j) <= 0x10_0000
    ensures Shr(0x000F_FFFF, j) == Pow2(20 - j) - 1 && Shr(0x0010_0000, j) == Pow2(20 - j)
    ensures Pow2(52 - j) == Pow2(20 - j) * 0x1_0000_0000
  {
    hide Shr, Pow2;
    assert Pow2(20) == 0x10_0000 && Pow2(1) == 2 && Pow2(32) == 0x1_0000_0000 by {
      Pow2Table();
    }
    ShrMask(20, j);
    Pow2Mono(1, 20 - j);
    Pow2Mono(20 - j, 20);
    Pow2Add(20 - j, 32);
  }

  /** The mask 0xffffffff >> (j0 - 20). */
  lemma {:induction false} LowMask(j: nat)
    requires 20 <= j <= 51
    ensures 2 <= Pow2(52 - j) <= 0x1_0000_0000
    ensures Shr(0xFFFF_FFFF, j - 20) == Pow2(52 - j) - 1
    ensures j > 20 ==> Shl(1, 52 - j) == Pow2(52 - j) <= 0x8000_0000
  {
    hide Shr, Shl, Pow2;
    assert Pow2(31) == 0x8000_0000 && Pow2(1) == 2 && Pow2(32) == 0x1_0000_0000 by {
      Pow2Table();
    }
    ShrMask(32, j - 20);
    Pow2Mono(1, 52 - j);
    Pow2Mono(52 - j, 32);
    ShlOne(52 - j);
    if j > 20 {
      Pow2Mono(52 - j, 31);
    }
  }

  lemma {:induction false} MaskedHigh(w: word, j: nat)
    requires j < 20
    ensures And(w, Shr(0x000F_FFFF, j)) == Low(w, 20 - j)
    ensures And(w, Not(Shr(0x000F_FFFF, j))) == w - Low(w, 20 - j)
  {
    hide And, Shr, Pow2, Low;
    HighMask(j);
    AndLow(w, 20 - j);
    AndHigh(w, 20 - j);
  }

  lemma {:induction false} MaskedLow(w: word, j: nat)
    requires 20 <= j <= 51
    ensures Shr(0xFFFF_FFFF, j - 20) < 0x1_0000_0000
    ensures And(w, Shr(0xFFFF_FFFF, j - 20)) == Low(w, 52 - j)
    ensures And(w, Not(Shr(0xFFFF_FFFF, j - 20))) == w - Low(w, 52 - j)
  {
    hide And, Shr, Pow2, Low;
    LowMask(j);
    AndLow(w, 52 - j);
    AndHigh(w, 52 - j);
  }

  /** The fraction of a pattern in terms of its words. */
  lemma {:induction false} FractionHigh(x: Double, j: nat)
    requires j < 20
    ensures Low(x.Mag(), 52 - j) == Low(x.hi, 20 - j) * 0x1_0000_0000 + x.lo
    ensures Low(x.hi, 20 - j) <= x.hi % 0x8000_0000
  {
    hide Pow2, Low;
    var n := 20 - j;
    assert Pow2(32) == 0x1_0000_0000 && Pow2(31) == 0x8000_0000 by {
      Pow2Table();
    }
    LowAppend(x.hi % 0x8000_0000, x.lo, n, 32);
    LowAbove(x.hi / 0x8000_0000, x.hi % 0x8000_0000, n, 31);
  }

  lemma {:induction false} FractionLow(x: Double, j: nat)
    requires 20 <= j <= 51
    ensures Low(x.Mag(), 52 - j) == Low(x.lo, 52 - j)
  {
    hide Pow2, Low;
    assert Pow2(32) == 0x1_0000_0000 by {
      Pow2Table();
    }
    LowAbove(x.hi % 0x8000_0000, x.lo, 52 - j, 32);
  }

  lemma {:induction false} NextMultiple(w: nat, n: nat)
    ensures Low(w + Pow2(n), n) == Low(w, n)
  {
    hide Pow2, Low;
    LowAbove(1, w, n, n);
  }

  /** The fraction lies in both words: step the integral part if asked, then clear. */
  method EditHigh(x: Double, j: nat, up: bool) returns (z: Double)
    requires j < 20 && x.Finite()
    ensures z.Negative() == x.Negative()
    ensures z.Mag() == x.Mag() - Low(x.Mag(), 52 - j) + if up then Pow2(52 - j) else 0
  {
    hide Pow2, And, Shr, Not, Low;
    ghost var G := Pow2(20 - j);
    HighMask(j);
    FractionHigh(x, j);
    HighTop(x);
    KeepSign(x.hi, 0, G);
    NextMultiple(x.hi, 20 - j);
    var i0: word := x.hi;
    if up {
      i0 := i0 + Shr(0x0010_0000, j);
    }
    MaskedHigh(i0, j);
    i0 := And(i0, Not(Shr(0x000F_FFFF, j)));
    z := Double(i0, 0);
    HighEdit(x, z, Low(x.hi, 20 - j), if up then G else 0);
  }

  /** Taking r from the high word and adding g there, in terms of the magnitude. */
  lemma {:induction false} HighEdit(x: Double, z: Double, r: nat, g: nat)
    requires r <= x.hi % 0x8000_0000 < 0x7FF0_0000 && g <= 0x10_0000 && z.hi == x.hi - r + g
    ensures z.Negative() == x.Negative()
    ensures z.Mag() == x.Mag() - (r * 0x1_0000_0000 + x.lo) + (g * 0x1_0000_0000 + z.lo)
  {
    KeepSign(x.hi, r, g);
  }

  lemma {:induction false} HighTop(x: Double)
    requires x.Finite()
    ensures x.hi % 0x8000_0000 < 0x7FF0_0000
  {
  }

  /** Stepping the integral part of a finite double does not reach the sign bit. */
  lemma {:induction false} KeepSign(hi: word, r: nat, g: nat)
    requires r <= hi % 0x8000_0000 < 0x7FF0_0000 && g <= 0x10_0000
    ensures var t := hi - r + g;
      && 0 <= t < 0x1_0000_0000
      && (t >= 0x8000_0000 <==> hi >= 0x8000_0000)
      && t % 0x8000_0000 == hi % 0x8000_0000 - r + g
  {
  }

  /** Stepping the low word carries into the high word by hand. */
  lemma {:induction false} CarryLow(lo: word, n: nat)
    requires n <= 31
    ensures var s := ToWord(lo + Pow2(n)); var carry := if s < lo then 1 else 0;
      carry * 0x1_0000_0000 + s == lo + Pow2(n) && Low(s, n) == Low(lo, n)
  {
    hide Pow2, Low;
    assert Pow2(32) == 0x1_0000_0000 && Pow2(31) == 0x8000_0000 by {
      Pow2Table();
    }
    Pow2Mono(n, 31);
    NextMultiple(lo, n);
    if lo + Pow2(n) >= 0x1_0000_0000 {
      LowAbove(1, lo + Pow2(n) - 0x1_0000_0000, n, 32);
    }
  }

  /** The fraction lies in the low word. */
  method EditLow(x: Double, j: nat, up: bool) returns (z: Double)
    requires 20 <= j <= 51 && x.Finite()
    ensures z.Negative() == x.Negative()
    ensures z.Mag() == x.Mag() - Low(x.Mag(), 52 - j) + if up then Pow2(52 - j) else 0
  {
    hide Pow2, And, Shr, Shl, Not, ToWord, Low;
    LowMask(j);
    FractionLow(x, j);
    HighTop(x);
    KeepSign(x.hi, 0, 1);
    assert Pow2(32) == 0x1_0000_0000 by {
      Pow2Table();
    }
    var i0: word, i1: word := x.hi, x.lo;
    if up {
      if j == 20 {
        i0 := i0 + 1;
      } else {
        CarryLow(x.lo, 52 - j);
        var s := ToWord(i1 + Shl(1, 52 - j));
        if s < i1 {
          i0 := i0 + 1;
        }
        i1 := s;
      }
    }
    MaskedLow(i1, j);
    i1 := And(i1, Not(Shr(0xFFFF_FFFF, j - 20)));
    z := Double(i0, i1);
  }

  // ----- floor, ceil, trunc -----

  lemma {:induction false} WholeTest(x: Double, j: nat)
    requires j <= 51
    ensures j < 20 ==> (Or(And(x.hi, Shr(0x000F_FFFF, j)), x.lo) == 0 <==> Low(x.Mag(), 52 - j) == 0)
    ensures j >= 20 ==> (And(x.lo, Shr(0xFFFF_FFFF, j - 20)) == 0 <==> Low(x.Mag(), 52 - j) == 0)
  {
    hide Or, And, Shr, Low;
    if j < 20 {
      FractionHigh(x, j);
      MaskedHigh(x.hi, j);
    } else {
      FractionLow(x, j);
      MaskedLow(x.lo, j);
    }
  }

  lemma {:induction false} FloorOf(v: int, q: int, r: int)
    requires v == q * Whole() + r && 0 <= r < Whole()
    ensures Floor(v) == q * Whole()
  {
    hide Pow2;
    DivModUnique(v, Whole(), q, r);
  }

  /** Floor and ceiling on both sides of zero, from the integral part of the magnitude. */
  lemma {:induction false} FloorCeil(u: int, q: int)
    requires 0 <= u && q == u / Whole()
    ensures Floor(u) == q * Whole() && Ceil(-u) == -(q * Whole())
    ensures u == q * Whole() ==> Ceil(u) == u && Floor(-u) == -u
    ensures u != q * Whole() ==> Ceil(u) == (q + 1) * Whole() && Floor(-u) == -((q + 1) * Whole())
  {
    hide Floor, Whole;
    var W := Whole();
    var q', r := DivModDef(u, W);
    FloorOf(u, q, r);
    MulAdd(q, 1, W);
    MulNeg(q, W);
    MulNeg(q + 1, W);
    if r == 0 {
      FloorOf(-u, -q, 0);
    } else {
      FloorOf(-u, -(q + 1), W - r);
    }
  }

  lemma {:induction false} MulNeg(a: int, b: int)
    ensures (-a) * b == -(a * b)
  {
  }

  /** The magnitude that results from clearing the fraction of x, stepped up if asked. */
  ghost predicate Edited(x: Double, z: Double, j: nat, up: bool)
    requires j <= 51
  {
    && z.Negative() == x.Negative()
    && z.Mag() == x.Mag() - Low(x.Mag(), 52 - j) + if up then Pow2(52 - j) else 0
  }

  /** Clearing rounds toward zero; clearing and stepping rounds away from it. */
  lemma {:induction false} EditedValue(x: Double, z: Double, j: nat, up: bool)
    requires j <= 51 && x.Mag() / D52 == 0x3FF + j && Edited(x, z, j, up)
    requires up ==> Low(x.Mag(), 52 - j) != 0
    ensures z.Finite()
    ensures z.Value() == if x.Negative() == up then Floor(x.Value()) else Ceil(x.Value())
  {
    hide Units, Low, Pow2, Floor, Ceil, Whole;
    FractionBits(x.Mag(), j);
    FloorCeil(Units(D52, x.Mag()), Units(D52, x.Mag()) / Whole());
    EditedFinite(x, z, j, up);
  }

  lemma {:induction false} EditedFinite(x: Double, z: Double, j: nat, up: bool)
    requires j <= 51 && x.Mag() / D52 == 0x3FF + j && Edited(x, z, j, up)
    ensures z.Finite()
  {
    hide Low, Pow2;
    assert Pow2(52 - j) <= D52 by {
      Pow2Mono(52 - j, 52);
      Pow2Table();
    }
  }

  /** freebsd_floor. */
  method FloorDouble(x: Double) returns (z: Double)
    ensures x.IsNaN() ==> z.IsNaN()
    ensures x.IsInf() ==> z == x
    ensures x.Finite() ==> z.Finite() && z.Negative() == x.Negative() && z.Value() == Floor(x.Value())
  {
    hide Units, Exponent, FAdd, Floor, Ceil, And, Or, Shr, Low;
    ExponentField(x);
    var j0 := Exponent(x);
    z := x;
    if j0 < 20 {
      if j0 < 0 {
        HugeProbe(x);
        if FAdd(HUGE, x).Value() > 0 {
          MagZero(x);
          if !x.Negative() {
            z := Double(0, 0);
          } else if Or(And(x.hi, 0x7FFF_FFFF), x.lo) != 0 {
            z := Double(0xBFF0_0000, 0);
          }
        }
        FloorSmall(x, z);
      } else {
        WholeTest(x, j0);
        if Or(And(x.hi, Shr(0x000F_FFFF, j0)), x.lo) == 0 {
          WholeValue(x);
          return x;
        }
        HugeProbe(x);
        if FAdd(HUGE, x).Value() > 0 {
          z := EditHigh(x, j0, x.Negative());
        }
        EditedValue(x, z, j0, x.Negative());
      }
    } else if j0 > 51 {
      if x.Finite() {
        WholeValue(x);
      }
      return x;
    } else {
      WholeTest(x, j0);
      if And(x.lo, Shr(0xFFFF_FFFF, j0 - 20)) == 0 {
        WholeValue(x);
        return x;
      }
      HugeProbe(x);
      if FAdd(HUGE, x).Value() > 0 {
        z := EditLow(x, j0, x.Negative());
      }
      EditedValue(x, z, j0, x.Negative());
    }
  }

  /** A double without fraction bits is its own floor and ceiling. */
  lemma {:induction false} WholeValue(x: Double)
    requires x.Finite() && x.Mag() / D52 >= 0x3FF
    requires x.Mag() / D52 <= 0x3FF + 51 ==> Low(x.Mag(), 52 - (x.Mag() / D52 - 0x3FF)) == 0
    ensures Floor(x.Value()) == x.Value() == Ceil(x.Value())
  {
    hide Units, Floor, Ceil, Low;
    var b := x.Mag();
    var e := b / D52;
    var u := Units(D52, b);
    if e <= 0x3FF + 51 {
      FractionBits(b, e - 0x3FF);
    } else {
      AboveFraction(b);
    }
    FloorCeil(u, u / Whole());
  }

  /** Floor and ceiling strictly between -1 and 1. */
  lemma {:induction false} SmallFloorCeil(u: int)
    requires 0 <= u < Whole()
    ensures Floor(u) == 0 && Ceil(-u) == 0
    ensures if u == 0 then Ceil(u) == 0 && Floor(-u) == 0 else Ceil(u) == Whole() && Floor(-u) == -Whole()
  {
    hide Floor, Ceil, Whole;
    DivModUnique(u, Whole(), 0, u);
    FloorCeil(u, 0);
  }

  /** The integral neighbours of a double below one in magnitude, with its sign. */
  lemma {:induction false} SmallResults(x: Double)
    requires x.Mag() / D52 < 0x3FF
    ensures x.Finite() && Double(0, 0).Value() == 0 && Double(0x8000_0000, 0).Value() == 0
    ensures Double(0x3FF0_0000, 0).Value() == Whole() && Double(0xBFF0_0000, 0).Value() == -Whole()
    ensures var v := x.Value(); -Whole() < v < Whole() && (v == 0 <==> x.Mag() == 0)
    ensures var v := x.Value(); if x.Negative() then v <= 0 else 0 <= v
  {
    hide Units, Whole;
    BelowOne(x.Mag());
    ZeroUnits();
  }

  lemma {:induction false} FloorSmall(x: Double, z: Double)
    requires x.Mag() / D52 < 0x3FF
    requires z == if !x.Negative() then Double(0, 0) else if x.Mag() == 0 then x else Double(0xBFF0_0000, 0)
    ensures z.Finite() && z.Negative() == x.Negative() && z.Value() == Floor(x.Value())
  {
    hide Units, Floor, Ceil, Whole;
    SmallResults(x);
    SmallFloorCeil(if x.Negative() then -x.Value() else x.Value());
  }

  lemma {:induction false} CeilSmall(x: Double, z: Double)
    requires x.Mag() / D52 < 0x3FF
    requires z == if x.Negative() then Double(0x8000_0000, 0) else if x.Mag() == 0 then x else Double(0x3FF0_0000, 0)
    ensures z.Finite() && z.Negative() == x.Negative() && z.Value() == Ceil(x.Value())
  {
    hide Units, Floor, Ceil, Whole;
    SmallResults(x);
    SmallFloorCeil(if x.Negative() then -x.Value() else x.Value());
  }

  /** freebsd_ceil. */
  method CeilDouble(x: Double) returns (z: Double)
    ensures x.IsNaN() ==> z.IsNaN()
    ensures x.IsInf() ==> z == x
    ensures x.Finite() ==> z.Finite() && z.Negative() == x.Negative() && z.Value() == Ceil(x.Value())
  {
    hide Units, Exponent, FAdd, Floor, Ceil, And, Or, Shr, Low;
    ExponentField(x);
    var j0 := Exponent(x);
    z := x;
    if j0 < 20 {
      if j0 < 0 {
        HugeProbe(x);
        if FAdd(HUGE, x).Value() > 0 {
          MagZero(x);
          if x.Negative() {
            z := Double(0x8000_0000, 0);
          } else if Or(x.hi, x.lo) != 0 {
            z := Double(0x3FF0_0000, 0);
          }
        }
        CeilSmall(x, z);
      } else {
        WholeTest(x, j0);
        if Or(And(x.hi, Shr(0x000F_FFFF, j0)), x.lo) == 0 {
          WholeValue(x);
          return x;
        }
        HugeProbe(x);
        PositiveHigh(x);
        if FAdd(HUGE, x).Value() > 0 {
          z := EditHigh(x, j0, Signed(x.hi) > 0);
        }
        EditedValue(x, z, j0, !x.Negative());
      }
    } else if j0 > 51 {
      if x.Finite() {
        WholeValue(x);
      }
      return x;
    } else {
      WholeTest(x, j0);
      if And(x.lo, Shr(0xFFFF_FFFF, j0 - 20)) == 0 {
        WholeValue(x);
        return x;
      }
      HugeProbe(x);
      PositiveHigh(x);
      if FAdd(HUGE, x).Value() > 0 {
        z := EditLow(x, j0, Signed(x.hi) > 0);
      }
      EditedValue(x, z, j0, !x.Negative());
    }
  }

  /** `i0 > 0` is the sign test once the exponent field is not zero. */
  lemma {:induction false} PositiveHigh(x: Double)
    requires x.Mag() / D52 > 0
    ensures Signed(x.hi) > 0 <==> !x.Negative()
  {
  }

  /** trunc. */
  method TruncDouble(x: Double) returns (z: Double)
    ensures x.IsNaN() ==> z.IsNaN()
    ensures x.IsInf() ==> z == x
    ensures x.Finite() ==> z.Finite() && z.Negative() == x.Negative()
    ensures x.Finite() ==> z.Value() == if x.Value() >= 0 then Floor(x.Value()) else Ceil(x.Value())
    ensures x.Finite() ==> z.Mag() <= x.Mag()
  {
    hide Units, Floor, Ceil;
    if !x.IsNaN() && x.Value() > 0 {
      z := FloorDouble(x);
    } else {
      z := CeilDouble(x);
    }
    if x.Value() == 0 {
      SmallFloorCeil(0);
    }
    TowardZero(x.Value());
    if z.Mag() > x.Mag() {
      UnitsMono(D52, x.Mag(), z.Mag());
    }
  }

  /** Rounding toward zero does not pass it and does not go away from it. */
  lemma {:induction false} TowardZero(v: int)
    ensures v >= 0 ==> 0 <= Floor(v) <= v
    ensures v <= 0 ==> v <= Ceil(v) <= 0
  {
    hide Floor, Ceil;
    FloorGreatest(v, 0);
  }

  // ----- what the specification functions mean -----

  /** Floor is the greatest integral value not above v, Ceil the least not below. */
  lemma {:induction false} FloorGreatest(v: int, k: int)
    ensures Floor(v) <= v < Floor(v) + Whole() && Ceil(v) - Whole() < v <= Ceil(v)
    ensures Floor(v) % Whole() == 0 && Ceil(v) % Whole() == 0
    ensures k * Whole() <= v ==> k * Whole() <= Floor(v)
    ensures v <= k * Whole() ==> Ceil(v) <= k * Whole()
  {
    hide Whole;
    var W := Whole();
    FloorBelow(v, k, W);
    FloorBelow(-v, -k, W);
    MulNeg(k, W);
    MulNeg((-v) / W, W);
    DivModUnique(Ceil(v), W, -((-v) / W), 0);
    DivModUnique(Floor(v), W, v / W, 0);
  }

  lemma {:induction false} FloorBelow(v: int, k: int, W: int)
    requires W > 0
    ensures v / W * W <= v < v / W * W + W
    ensures k * W <= v ==> k * W <= v / W * W
  {
    var q, r := DivModDef(v, W);
    if k > q {
      MulMono(q + 1, k, W);
      MulAdd(q, 1, W);
    } else {
      MulMono(k, q, W);
    }
  }

  /** Two integral values less than one apart are equal. */
  lemma {:induction false} SameWhole(f: int, g: int)
    requires f % Whole() == 0 && g % Whole() == 0 && f - Whole() < g < f + Whole()
    ensures f == g
  {
    hide Whole;
    var W := Whole();
    var a, b := f / W, g / W;
    assert f == a * W && g == b * W;
    if a < b {
      MulMono(a + 1, b, W);
      MulAdd(a, 1, W);
    } else if b < a {
      MulMono(b + 1, a, W);
      MulAdd(b, 1, W);
    }
  }

  /** The greatest integral value not above v is minus the least not below -v, whichever way the two are
      computed. */
  lemma {:induction false} FloorCeilMirror(v: int, f: int, c: int)
    requires f % Whole() == 0 && f <= v < f + Whole()
    requires c % Whole() == 0 && c - Whole() < -v <= c
    ensures f == -c
  {
    hide Whole;
    var W := Whole();
    assert c == c / W * W;
    MulNeg(c / W, W);
    DivModUnique(-c, W, -(c / W), 0);
    SameWhole(f, -c);
  }

  /** freebsd_floor(x) and -freebsd_ceil(-x) are the same double, bit by bit. */
  method FloorIsMinusCeil(x: Double) returns (f: Double, c: Double)
    requires x.Finite()
    ensures f == Neg(c) && f.Finite() && f.Value() == Floor(x.Value()) && c.Value() == Ceil(0 - x.Value())
  {
    hide Units, Floor, Ceil, Neg;
    NegFacts(x);
    f := FloorDouble(x);
    c := CeilDouble(Neg(x));
    MirrorBits(x, f, c);
  }

  lemma {:induction false} NegFacts(x: Double)
    requires x.Finite()
    ensures Neg(x).Finite() && Neg(x).Negative() == !x.Negative() && Neg(x).Value() == 0 - x.Value()
  {
    hide Units;
  }

  lemma {:induction false} MirrorBits(x: Double, f: Double, c: Double)
    requires f.Finite() && f.Negative() == x.Negative() && f.Value() == Floor(x.Value())
    requires c.Finite() && c.Negative() == !x.Negative() && c.Value() == Ceil(0 - x.Value())
    ensures f == Neg(c)
  {
    hide Units, Floor, Ceil, Whole, Neg;
    var v := x.Value();
    FloorGreatest(v, 0);
    FloorGreatest(-v, 0);
    FloorCeilMirror(v, f.Value(), c.Value());
    UnitsInjective(D52, f.Mag(), c.Mag());
    NegMag(c);
    SameDouble(f, Neg(c));
  }

  lemma {:induction false} NegMag(x: Double)
    ensures Neg(x).Mag() == x.Mag() && Neg(x).Negative() == !x.Negative()
  {
  }
}
