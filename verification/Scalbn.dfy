/** freebsd_scalbn: x * 2^n with a single rounding. */
module Scalbn {
  import opened Words
  import opened Ieee
  import opened Doubles

  function Up(n: int): nat {
    if n >= 0 then n else 0
  }

  /** x * 2^n as a fraction of two naturals, in units. */
  function Numerator(x: Double, n: int): nat {
    Units(D52, x.Mag()) * Pow2(Up(n))
  }

  function Denominator(n: int): (d: nat)
    ensures d > 0
  {
    Pow2(Up(-n))
  }

  /** scaleB of section 5.3.3 of IEEE 754-2019: the exact product, rounded once to nearest even. */
  function ScaleB(x: Double, n: int): Double {
    RoundDouble(x.Negative(), Numerator(x, n), Denominator(n))
  }

  // ----- rounding depends on the quotient only -----

  lemma {:induction false} RoundRatio(a: nat, d: nat, a': nat, d': nat)
    requires d > 0 && d' > 0 && a * d' == a' * d
    ensures RoundMag(D52, a, d) == RoundMag(D52, a', d')
  {
    hide Units, RoundMag, IsNearestEven;
    var c := d * d';
    MulGe(d, d');
    RoundScale(a, d, d');
    RoundScale(a', d', d);
  }

  lemma {:induction false} RoundScale(a: nat, d: nat, c: nat)
    requires d > 0 && c > 0
    ensures d * c > 0 && RoundMag(D52, a * c, d * c) == RoundMag(D52, a, d)
  {
    hide Units, RoundMag;
    MulGe(d, c);
    var r := RoundMag(D52, a * c, d * c);
    RoundMagNearest(D52, a * c, d * c);
    RoundMagNearest(D52, a, d);
    assert IsNearestEven(D52, a, d, r) by {
      forall y: nat
        ensures Dist(D52, a, d, r) <= Dist(D52, a, d, y)
        ensures y != r && Dist(D52, a, d, r) == Dist(D52, a, d, y) ==> r % 2 == 0
      {
        assert Dist(D52, a * c, d * c, r) <= Dist(D52, a * c, d * c, y);
        DistScale(a, d, c, r);
        DistScale(a, d, c, y);
        MulCompare(Dist(D52, a, d, r), Dist(D52, a, d, y), c);
      }
    }
    NearestEvenUnique(D52, a, d, r, RoundMag(D52, a, d));
  }

  lemma {:induction false} MulCompare(x: int, y: int, c: int)
    requires c > 0 && x * c <= y * c
    ensures x <= y && (x == y ==> x * c == y * c)
  {
    if y < x {
      MulMono(y + 1, x, c);
      MulAdd(y, 1, c);
    }
  }

  lemma {:induction false} DistScale(a: nat, d: nat, c: nat, y: nat)
    ensures Dist(D52, a * c, d * c, y) == Dist(D52, a, d, y) * c
  {
    hide Units;
    var u: int, a': int := Units(D52, y) * d, a;
    MulAssoc(Units(D52, y), d, c);
    if u <= a {
      MulMono(u, a, c);
      MulAdd(a, -u, c);
    } else {
      MulMono(a, u, c);
      MulAdd(u, -a', c);
    }
    assert (-u) * c == -(u * c) && (-a') * c == -(a' * c);
  }

  /** Less than half a unit rounds to zero. */
  lemma {:induction false} RoundsToZero(a: nat, d: nat)
    requires 2 * a < d
    ensures RoundMag(D52, a, d) == 0
  {
    DivModUnique(a, d, 0, a);
    MulGe(2 * D52, d);
  }

  /** From the value of the pattern of infinity on, the rounded magnitude is not finite. */
  lemma {:induction false} RoundsToInf(a: nat, d: nat)
    requires d > 0 && Units(D52, INF) * d <= a
    ensures RoundMag(D52, a, d) >= INF
  {
    hide Units, RoundMag;
    var r := RoundMag(D52, a, d);
    RoundMagNearest(D52, a, d);
    assert Dist(D52, a, d, r) <= Dist(D52, a, d, INF);
    if r < INF {
      ScaledGap(D52, d, r, INF);
    }
  }

  // ----- exponents -----

  lemma {:induction false} ShlAdd(u: nat, a: nat, b: nat)
    ensures Shl(Shl(u, a), b) == Shl(u, a + b)
  {
    if b > 0 {
      ShlAdd(u, a, b - 1);
    }
  }

  lemma {:induction false} ShlInjective(u: nat, v: nat, k: nat)
    requires Shl(u, k) == Shl(v, k)
    ensures u == v
  {
    if k > 0 {
      ShlInjective(u, v, k - 1);
    }
  }

  /** The same factor of two on both sides. */
  lemma {:induction false} ShlBalance(U: nat, s: nat, m: nat, e: nat, x: nat, y: nat)
    requires Shl(U, s) == Shl(m, e) && e + x == y + s
    ensures Shl(U, x) == Shl(m, y)
  {
    hide Shl;
    if x >= s {
      ShlAdd(U, s, x - s);
      ShlAdd(m, e, x - s);
    } else {
      ShlAdd(U, x, s - x);
      ShlAdd(m, y, s - x);
      ShlInjective(Shl(U, x), Shl(m, y), s - x);
    }
  }

  /** Two fractions with the same power of two in front of the same number are equal. */
  lemma {:induction false} CrossPow(U: nat, s: nat, m: nat, e: nat, np: nat, nn: nat, t: nat, i: nat)
    requires Shl(U, s) == Shl(m, e) && e + np + t == i + nn + s
    ensures Shl(U, np) * Pow2(t) == Shl(m, i) * Pow2(nn)
  {
    hide Pow2, Shl;
    ShlBalance(U, s, m, e, np + t, i + nn);
    ShlAdd(U, np, t);
    ShlAdd(m, i, nn);
    ShlIsMul(Shl(U, np), t);
    ShlIsMul(Shl(m, i), nn);
  }

  /** m * 2^(k - 1) is x * 2^n: x scaled up by 2^s is the normal number m * 2^e, whose exponent
      field, less s and plus n, is k. */
  ghost predicate Scaled(x: Double, n: int, m: nat, e: nat, s: nat, k: int) {
    && Shl(Units(D52, x.Mag()), s) == Shl(m, e)
    && D52 <= m < 2 * D52 && k == e + 1 - s + n
  }

  /** x * 2^n as m * 2^i / 2^t. */
  lemma {:induction false} ScaledRatio(x: Double, n: int, m: nat, e: nat, s: nat, k: int, t: nat, i: nat)
    requires Scaled(x, n, m, e, s, k) && i == k - 1 + t
    ensures RoundMag(D52, Numerator(x, n), Denominator(n)) == RoundMag(D52, m * Pow2(i), Pow2(t))
  {
    hide Units, Pow2, RoundMag, Shl;
    CrossPow(Units(D52, x.Mag()), s, m, e, Up(n), Up(-n), t, i);
    ShlIsMul(Units(D52, x.Mag()), Up(n));
    ShlIsMul(m, i);
    RoundRatio(Numerator(x, n), Denominator(n), m * Pow2(i), Pow2(t));
  }

  /** A product in the normal range is exact. */
  lemma {:induction false} ScaledNormal(x: Double, n: int, m: nat, e: nat, s: nat, k: int)
    requires Scaled(x, n, m, e, s, k) && 1 <= k <= 0x7FE
    ensures RoundMag(D52, Numerator(x, n), Denominator(n)) == (k - 1) * D52 + m < INF
  {
    hide Units, Pow2, RoundMag, Numerator, Denominator, Shl;
    ScaledRatio(x, n, m, e, s, k, 0, k - 1);
    assert Pow2(0) == 1 by {
      Pow2Table();
    }
    UnitsAt(D52, k - 1, m);
    RoundExact(D52, m * Pow2(k - 1), 1, (k - 1) * D52 + m);
  }

  lemma {:induction false} ScaledOverflow(x: Double, n: int, m: nat, e: nat, s: nat, k: int)
    requires Scaled(x, n, m, e, s, k) && k > 0x7FE
    ensures RoundMag(D52, Numerator(x, n), Denominator(n)) >= INF
  {
    hide Units, Pow2, RoundMag, Numerator, Denominator, Shl;
    ScaledRatio(x, n, m, e, s, k, 0, k - 1);
    assert Pow2(0) == 1 by {
      Pow2Table();
    }
    UnitsAt(D52, 0x7FE, D52);
    Pow2Mono(0x7FE, k - 1);
    MulMono(D52, m, Pow2(k - 1));
    RoundsToInf(m * Pow2(k - 1), 1);
  }

  lemma {:induction false} ScaledUnderflow(x: Double, n: int, m: nat, e: nat, s: nat, k: int)
    requires Scaled(x, n, m, e, s, k) && k <= -54
    ensures RoundMag(D52, Numerator(x, n), Denominator(n)) == 0
  {
    hide Units, Pow2, RoundMag, Numerator, Denominator, Shl;
    ScaledRatio(x, n, m, e, s, k, 1 - k, 0);
    assert Pow2(0) == 1 && Pow2(54) == 4 * D52 by {
      Pow2Table();
    }
    Pow2Mono(54, 1 - k);
    RoundsToZero(m, Pow2(1 - k));
  }

  /** Multiplying by 2^-54 is the only rounding of a subnormal result. */
  lemma {:induction false} ScaledSubnormal(x: Double, n: int, m: nat, e: nat, s: nat, k: int, y: Double)
    requires Scaled(x, n, m, e, s, k) && -54 < k <= 0
    requires y.Finite() && Units(D52, y.Mag()) == m * Pow2(k + 53) && y.Negative() == x.Negative()
    ensures FMul(y, TWOM54) == ScaleB(x, n)
  {
    hide Units, Pow2, RoundMag, Numerator, Denominator, Shl;
    ScaledRatio(x, n, m, e, s, k, UNIT, k - 1 + UNIT);
    PowersOfTwo();
    MulAssoc(m, Pow2(k + 53), Pow2(UNIT - 54));
    Pow2Add(k + 53, UNIT - 54);
  }

  // ----- the products -----

  lemma {:induction false} PowersOfTwo()
    ensures Units(D52, TWO54.Mag()) == Pow2(54) * Pow2(UNIT)
    ensures Units(D52, TWOM54.Mag()) == Pow2(UNIT - 54)
  {
    hide Units, Pow2;
    assert Pow2(52) == D52 by {
      Pow2Table();
    }
    UnitsAt(D52, 0x434, D52);
    Pow2Add(52, 0x434);
    Pow2Add(54, UNIT);
    UnitsAt(D52, 0x3C8, D52);
    Pow2Add(52, 0x3C8);
  }

  /** `x * two54` on a subnormal number is exact and normal. */
  lemma {:induction false} TimesTwo54(x: Double)
    requires 0 < x.Mag() < D52
    ensures var y := FMul(x, TWO54);
      && y.Finite() && y.Negative() == x.Negative()
      && Units(D52, y.Mag()) == x.Mag() * Pow2(54)
      && 3 <= y.Mag() / D52 <= 54
  {
    hide Units, Pow2, RoundMag;
    var U := x.Mag();
    assert Units(D52, U) == U by {
      var k, m := Split(D52, U);
      assert Pow2(0) == 1 by {
        Pow2Table();
      }
    }
    PowersOfTwo();
    var b := Representable(U, 54);
    MulAssoc(U, Pow2(54), Pow2(UNIT));
    RoundExact(D52, U * Pow2(54) * Pow2(UNIT), Pow2(UNIT), b);
    NormalRange(b, U);
  }

  lemma {:induction false} NormalRange(b: nat, U: nat)
    requires 0 < U < D52 && Units(D52, b) == U * Pow2(54)
    ensures 3 <= b / D52 <= 54 && b < INF
  {
    hide Units, Pow2;
    assert Pow2(2) == 4 && Pow2(52) == D52 by {
      Pow2Table();
      Pow2Two();
    }
    UnitsAt(D52, 2, D52);
    Pow2Add(52, 2);
    MulMono(1, U, Pow2(54));
    if b < 3 * D52 {
      UnitsMono(D52, b, 3 * D52);
    }
    UnitsAt(D52, 54, D52);
    ScaleLess(U, D52, Pow2(54));
    if b >= 55 * D52 {
      if b > 55 * D52 {
        UnitsMono(D52, 55 * D52, b);
      }
    }
  }

  lemma {:induction false} Pow2Two()
    ensures Pow2(2) == 4
  {
  }

  /** tiny times anything below 2^106 units rounds to a zero. */
  lemma {:induction false} TinyProduct(x: Double)
    requires x.Finite() && Units(D52, x.Mag()) < Pow2(106)
    ensures FMul(TINY, x).Mag() == 0 && FMul(TINY, x).Negative() == x.Negative()
  {
    hide Units, Pow2, RoundMag;
    TinyBelow();
    var t, u := Units(D52, TINY.Mag()), Units(D52, x.Mag());
    SmallProduct(t, u, t * u, UNIT);
  }

  lemma {:induction false} TinyBelow()
    ensures Units(D52, TINY.Mag()) < Pow2(80)
  {
    hide Pow2;
    assert Pow2(52) == D52 && Pow2(54) == 4 * D52 by {
      Pow2Table();
    }
    var t := TINY.Mag();
    var k, m := Split(D52, t);
    assert k == 25;
    Pow2Add(54, 25);
    Pow2Mono(79, 80);
    MulMono(m, Pow2(54), Pow2(25));
  }

  lemma {:induction false} SmallProduct(t: nat, u: nat, p: nat, n: nat)
    requires t < Pow2(80) && u < Pow2(106) && p == t * u && n >= 188
    ensures RoundMag(D52, p, Pow2(n)) == 0
  {
    hide Pow2, RoundMag;
    MulMono(t, Pow2(80), u);
    MulMono(u, Pow2(106), Pow2(80));
    Pow2Add(106, 80);
    Pow2Mono(186, 187);
    Pow2Mono(187, n);
    RoundsToZero(p, Pow2(n));
  }

  /** huge * huge overflows. */
  lemma {:induction false} HugeProduct(x: Double)
    requires x.Mag() == HUGE.Mag()
    ensures FMul(HUGE, x) == Make(x.Negative(), INF)
  {
    hide Units, Pow2, RoundMag;
    var h := Units(D52, HUGE.Mag());
    HugeAbove();
    UnitsAt(D52, 0x7FE, D52);
    MulMono(Pow2(2000), h, h);
    MulMono(Pow2(2000), h, Pow2(2000));
    Pow2Add(2000, 2000);
    assert Pow2(52) == D52 by {
      Pow2Table();
    }
    Pow2Add(52, 0x7FE);
    Pow2Add(52 + 0x7FE, UNIT);
    Pow2Mono(52 + 0x7FE + UNIT, 4000);
    RoundsToInf(h * h, Pow2(UNIT));
  }

  lemma {:induction false} HugeAbove()
    ensures Units(D52, HUGE.Mag()) >= Pow2(2000)
  {
    hide Units, Pow2;
    assert Pow2(52) == D52 by {
      Pow2Table();
    }
    UnitsAt(D52, 2000, D52);
    Pow2Add(52, 2000);
    MulGe(D52, Pow2(2000));
    UnitsMono(D52, 2001 * D52, HUGE.Mag());
  }

  // ----- the words -----

  /** `(hx & 0x7ff00000) >> 20`. */
  lemma {:induction false} ExponentOf(x: Double)
    ensures Shr(And(x.hi, 0x7FF0_0000), 20) == x.Mag() / D52
  {
    hide And, Shr, Shl, Low, Pow2;
    assert Pow2(11) == 0x800 && Pow2(20) == 0x10_0000 by {
      Pow2Table();
    }
    AndField(x.hi, 20, 11);
    ShlIsMul(0x7FF, 20);
    ShrIsDiv(x.hi, 20);
    var e := x.hi / 0x10_0000;
    ShrIsDiv(e, 11);
    ShrShl(e % 0x800, 20);
    Fields(x);
  }

  /** `hx & 0x800fffff`. */
  lemma {:induction false} ClearExponent(w: word)
    ensures And(w, 0x800F_FFFF) == Shl(w / 0x8000_0000 * 0x800, 20) + w % 0x10_0000
  {
    hide And, Shr, Shl, Low, Pow2;
    assert Pow2(11) == 0x800 && Pow2(20) == 0x10_0000 by {
      Pow2Table();
    }
    var e, f := w / 0x10_0000, w % 0x10_0000;
    ShlIsMul(0x800, 20);
    AndSplit(w, 0x800, 0xF_FFFF, 20);
    ShrIsDiv(w, 20);
    BitAt(e, 11);
    AndLow(f, 20);
    LowId(f, 20);
  }

  /** `(hx & 0x800fffff) | (k << 20)`. */
  lemma {:induction false} PutExponent(w: word, k: nat)
    requires k < 0x800
    ensures Or(And(w, 0x800F_FFFF), Shl(k, 20))
      == w / 0x8000_0000 * 0x8000_0000 + k * 0x10_0000 + w % 0x10_0000
  {
    hide And, Or, Shr, Shl, Low, Pow2;
    assert Pow2(11) == 0x800 && Pow2(20) == 0x10_0000 by {
      Pow2Table();
    }
    var f, s := w % 0x10_0000, w / 0x8000_0000;
    ClearExponent(w);
    OrSplit(s * 0x800, f, k, 0, 20);
    ShlIsMul(s, 11);
    OrDisjoint(s, 11, k);
    ShlIsMul(s * 0x800 + k, 20);
    OrComm(f, 0);
  }

  lemma {:induction false} WithExponent(x: Double, k: nat, z: Double)
    requires k < 0x800 && z.lo == x.lo
    requires z.hi == x.hi / 0x8000_0000 * 0x8000_0000 + k * 0x10_0000 + x.hi % 0x10_0000
    ensures z.Negative() == x.Negative() && z.Mag() == k * D52 + x.Mag() % D52
  {
    Fields(x);
    var h := k * 0x10_0000 + x.hi % 0x10_0000;
    DivModUnique(z.hi, 0x8000_0000, x.hi / 0x8000_0000, h);
  }

  /** Replacing the exponent field keeps sign and fraction. */
  method SetExponent(x: Double, k: nat) returns (z: Double)
    requires k < 0x800
    ensures z.Negative() == x.Negative() && z.Mag() == k * D52 + x.Mag() % D52
  {
    hide And, Or, Shl;
    PutExponent(x.hi, k);
    z := Double(Or(And(x.hi, 0x800F_FFFF), Shl(k, 20)), x.lo);
    WithExponent(x, k, z);
  }

  /** freebsd_copysign. */
  method CopySign(x: Double, y: Double) returns (z: Double)
    ensures z.Mag() == x.Mag() && z.Negative() == y.Negative()
  {
    hide And, Or;
    SignBit(y.hi);
    PutSign(x.hi, y.Negative());
    z := Double(Or(And(x.hi, 0x7FFF_FFFF), And(y.hi, 0x8000_0000)), x.lo);
  }

  // ----- freebsd_scalbn -----

  /** Lines 1196 to 1202: the normal number y = x * 2^s to work on, and its exponent less s. */
  lemma {:induction false} StartScaled(x: Double, y: Double, s: nat, n: int)
    requires x.Finite() && x.Mag() > 0 && y.Finite()
    requires if x.Mag() / D52 == 0 then s == 54 && y == FMul(x, TWO54) else s == 0 && y == x
    ensures y.Finite() && y.Negative() == x.Negative() && 0 < y.Mag() / D52 < 0x7FF
    ensures Scaled(x, n, D52 + y.Mag() % D52, y.Mag() / D52 - 1, s, y.Mag() / D52 - s + n)
    ensures s == 54 ==> 3 <= y.Mag() / D52 <= 54
  {
    hide Units, Pow2, FMul, Shl;
    if s == 54 {
      TimesTwo54(x);
      var k0, m0 := Split(D52, x.Mag());
    }
    assert Pow2(0) == 1 by {
      Pow2Table();
    }
    var k, m := Split(D52, y.Mag());
    ShlIsMul(m, k);
    ShlIsMul(Units(D52, x.Mag()), s);
  }

  lemma {:induction false} ScaleZero(x: Double, n: int)
    requires x.Mag() == 0
    ensures ScaleB(x, n) == x
  {
    hide RoundMag, Pow2, Units, Denominator;
    ZeroUnits();
    ZeroProduct(Pow2(Up(n)), Denominator(n));
    RoundExact(D52, 0, Denominator(n), 0);
    SameDouble(ScaleB(x, n), x);
  }

  lemma {:induction false} ZeroProduct(p: nat, d: nat)
    ensures 0 * p == 0 && 0 * d == 0
  {
  }

  /** `k + n` wraps only upwards, and then to a value below every threshold. */
  lemma {:induction false} WrapSum(k: int, n: int32)
    requires -51 <= k < 0x7FF && (k <= 0 ==> n >= -50000)
    ensures var w := Signed(ToWord(k + n));
      if k + n < 0x8000_0000 then w == k + n else w <= -54 && n > 50000
  {
  }

  /** Results outside the range of normal numbers: lines 1210 and 1217 to 1220. */
  method Overflow(x: Double) returns (z: Double)
    ensures z == Make(x.Negative(), INF)
  {
    hide FMul;
    var h := CopySign(HUGE, x);
    HugeProduct(h);
    z := FMul(HUGE, h);
  }

  method Underflow(x: Double) returns (z: Double)
    ensures z == Make(x.Negative(), 0)
  {
    hide FMul, Units, Pow2;
    var t := CopySign(TINY, x);
    TinyBelow();
    Pow2Mono(80, 106);
    TinyProduct(t);
    z := FMul(TINY, t);
    SameDouble(z, Make(x.Negative(), 0));
  }

  /** Lines 1208 to 1224, with y = x * 2^s normal and k its exponent field less s. */
  method ScaleNormal(x: Double, y: Double, ghost s: nat, k0: int, n: int32) returns (z: Double)
    requires x.Finite() && x.Mag() > 0 && y.Finite() && k0 == y.Mag() / D52 - s
    requires if x.Mag() / D52 == 0 then s == 54 && y == FMul(x, TWO54) && n >= -50000 else s == 0 && y == x
    ensures z == ScaleB(x, n)
  {
    hide Units, Pow2, RoundMag, FMul, Numerator, Denominator, Scaled, ToWord;
    ghost var m, e := D52 + y.Mag() % D52, y.Mag() / D52 - 1;
    StartScaled(x, y, s, n);
    WrapSum(k0, n);
    var k: int := Signed(ToWord(k0 + n));
    if k > 0x7FE {
      ScaledOverflow(x, n, m, e, s, k0 + n);
      z := Overflow(y);
      return;
    }
    if k > 0 {
      ScaledNormal(x, n, m, e, s, k0 + n);
      z := SetExponent(y, k);
      SameDouble(z, ScaleB(x, n));
      return;
    }
    if k <= -54 {
      if n > 50000 {
        ScaledOverflow(x, n, m, e, s, k0 + n);
        z := Overflow(y);
      } else {
        ScaledUnderflow(x, n, m, e, s, k0 + n);
        z := Underflow(y);
      }
      return;
    }
    var y' := SetExponent(y, k + 54);
    UnitsAt(D52, k + 53, m);
    ScaledSubnormal(x, n, m, e, s, k, y');
    z := FMul(y', TWOM54);
  }

  /** freebsd_scalbn. */
  method ScalbnDouble(x: Double, n: int32) returns (z: Double)
    ensures x.IsNaN() ==> z.IsNaN()
    ensures x.IsInf() ==> z == x
    ensures x.Finite() ==> z == ScaleB(x, n)
  {
    hide Units, And, Or, Shr, FMul, ScaleB, Pow2, Scaled;
    ExponentOf(x);
    var k := Shr(And(x.hi, 0x7FF0_0000), 20);
    if k == 0 {
      MagZero(x);
      if Or(x.lo, And(x.hi, 0x7FFF_FFFF)) == 0 {
        ScaleZero(x, n);
        return x;
      }
      TimesTwo54(x);
      var y := FMul(x, TWO54);
      ExponentOf(y);
      var ky := Shr(And(y.hi, 0x7FF0_0000), 20) - 54;
      if n < -50000 {
        z := FMul(TINY, y);
        DeepUnderflow(x, y, n);
        return;
      }
      z := ScaleNormal(x, y, 54, ky, n);
    } else if k == 0x7FF {
      return x;
    } else {
      z := ScaleNormal(x, x, 0, k, n);
    }
  }

  lemma {:induction false} DeepUnderflow(x: Double, y: Double, n: int)
    requires 0 < x.Mag() < D52 && y.Finite() && y == FMul(x, TWO54) && n < -50000
    ensures FMul(TINY, y) == ScaleB(x, n)
  {
    hide Units, RoundMag, Pow2, FMul, Numerator, Denominator, Scaled;
    StartScaled(x, y, 54, n);
    TimesTwo54(x);
    ScaledUnderflow(x, n, D52 + y.Mag() % D52, y.Mag() / D52 - 1, 54, y.Mag() / D52 - 54 + n);
    assert Units(D52, y.Mag()) < Pow2(106) by {
      assert Pow2(52) == D52 by {
        Pow2Table();
      }
      ScaleLess(x.Mag(), D52, Pow2(54));
      Pow2Add(52, 54);
    }
    TinyProduct(y);
    SameDouble(FMul(TINY, y), ScaleB(x, n));
  }

  // ----- what ScaleB means -----

  /** The result is the pattern nearest to x * 2^n, ties to even, or infinity when that pattern is
      beyond the finite range; the sign is that of x. */
  lemma {:induction false} ScaleBNearest(x: Double, n: int)
    ensures var r := RoundMag(D52, Numerator(x, n), Denominator(n));
      && IsNearestEven(D52, Numerator(x, n), Denominator(n), r)
      && ScaleB(x, n).Mag() == (if r < INF then r else INF)
      && ScaleB(x, n).Negative() == x.Negative()
  {
    hide RoundMag, Units, Pow2, IsNearestEven;
    RoundMagNearest(D52, Numerator(x, n), Denominator(n));
  }
}
