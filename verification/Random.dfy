/** speedtest1_random: a shift register xor a linear congruential generator. */
module Random {
  import opened Words
  import opened Register

  /** `y * 1103515245 + 12345`. */
  function NextY(y: word): word {
    ToWord(y * 1103515245 + 12345)
  }

  /** The generator state of struct Global. */
  class Global {
    var x: bv32
    var y: word

    /** speedtest1_begin_test seeds the generator. */
    constructor ()
      ensures x == 0xAD13_1D0B && y == 0x44F9_EAC8
    {
      x, y := 0xAD13_1D0B, 0x44F9_EAC8;
    }

    method Next() returns (r: bv32)
      modifies this
      ensures x == NextX(old(x)) && y == NextY(old(y)) && r == x ^ (y as bv32)
      ensures x == (old(x) >> 1) ^ ((1 + !(old(x) & 1)) & 0xD000_0001)
      ensures y == (old(y) * 1103515245 + 12345) % 0x1_0000_0000
    {
      x := NextX(x);
      y := NextY(y);
      r := x ^ (y as bv32);
    }
  }

  // ----- the congruential half -----

  const A: int := 1103515245
  const C: int := 12345
  const M: nat := 0x1_0000_0000

  /** y after n draws. */
  function DrawY(y: word, n: nat): word {
    if n == 0 then y else NextY(DrawY(y, n - 1))
  }

  /** The same without reduction modulo 2^32, and 1 + A + ... + A^(n-1). */
  function Exact(y: int, n: nat): int {
    if n == 0 then y else A * Exact(y, n - 1) + C
  }

  function Geometric(n: nat): int {
    if n == 0 then 0 else A * Geometric(n - 1) + 1
  }

  lemma {:induction false} DrawIsExact(y: word, n: nat)
    ensures DrawY(y, n) == Exact(y, n) % M
  {
    if n > 0 {
      DrawIsExact(y, n - 1);
      StepMod(Exact(y, n - 1));
    }
  }

  lemma {:induction false} StepMod(e: int)
    ensures (A * (e % M) + C) % M == (A * e + C) % M
  {
    var q, r := DivModDef(e, M);
    var q', r' := DivModDef(A * r + C, M);
    DivModUnique(A * e + C, M, A * q + q', r');
  }

  /** Continuing a run. */
  lemma {:induction false} ExactAdd(y: int, i: nat, n: nat)
    ensures Exact(y, i + n) == Exact(Exact(y, i), n)
  {
    if n > 0 {
      ExactAdd(y, i, n - 1);
      assert Exact(y, i + n) == A * Exact(y, i + (n - 1)) + C;
    }
  }

  /** n steps move y by Geometric(n) times an odd number. */
  lemma {:induction false} ExactMove(y: int, n: nat)
    ensures Exact(y, n) - y == Geometric(n) * ((A - 1) * y + C)
  {
    var z := (A - 1) * y + C;
    if n > 0 {
      ExactMove(y, n - 1);
      var g := Geometric(n - 1);
      assert (A * g + 1) * z == A * (g * z) + z by {
        MulAdd(A * g, 1, z);
        MulAssoc(A, g, z);
      }
    }
  }

  /** 2^k divides n. */
  predicate Divides(k: nat, n: int) {
    k == 0 || (n % 2 == 0 && Divides(k - 1, n / 2))
  }

  lemma {:induction false} DividesIs(k: nat, n: int)
    ensures Divides(k, n) <==> n % Pow2(k) == 0
  {
    if k > 0 {
      DividesIs(k - 1, n / 2);
      var d := Pow2(k - 1);
      var q, r := DivModDef(n / 2, d);
      assert n == q * (2 * d) + (2 * r + n % 2) by {
        MulAssoc(q, 2, d);
        MulAssoc(2, q, d);
      }
      DivModUnique(n, 2 * d, q, 2 * r + n % 2);
    }
  }

  /** An odd factor does not matter. */
  lemma {:induction false} OddFactor(k: nat, g: int, u: int)
    requires u % 2 == 1
    ensures Divides(k, g * u) <==> Divides(k, g)
  {
    if k > 0 {
      var h, v := g / 2, u / 2;
      if g % 2 == 0 {
        assert g * u == 2 * (h * u) by {
          MulAssoc(2, h, u);
        }
        assert (2 * (h * u)) / 2 == h * u;
        OddFactor(k - 1, h, u);
      } else {
        assert g * u == 2 * (g * v + h) + 1 by {
          assert g * (2 * v + 1) == 2 * (g * v) + g;
        }
      }
    }
  }

  /** A^n as 1 + (A - 1) Geometric(n). */
  function PowerA(n: nat): int {
    (A - 1) * Geometric(n) + 1
  }

  lemma {:induction false} GeometricAdd(m: nat, n: nat)
    ensures Geometric(m + n) == Geometric(m) * PowerA(n) + Geometric(n)
  {
    if n == 0 {
      assert Geometric(m) * 1 == Geometric(m);
    } else {
      GeometricAdd(m, n - 1);
      var g, p := Geometric(m), PowerA(n - 1);
      assert PowerA(n) == A * p;
      assert g * (A * p) == A * (g * p);
      assert Geometric(m + n) == A * Geometric(m + (n - 1)) + 1;
    }
  }

  /** (A^m + 1) / 2, which is odd because A = 1 mod 4. */
  function HalfSum(g: int): int {
    2 * (275878811 * g) + 1
  }

  lemma {:induction false} GeometricDouble(m: nat)
    ensures Geometric(m + m) == 2 * (Geometric(m) * HalfSum(Geometric(m)))
  {
    hide Geometric;
    var g := Geometric(m);
    GeometricAdd(m, m);
    assert PowerA(m) + 1 == 2 * HalfSum(g);
    assert g * PowerA(m) + g == g * (2 * HalfSum(g)) by {
      MulAdd2(g, PowerA(m), 1);
    }
    MulTwo(g, HalfSum(g));
  }

  /** The heart of the full period: Geometric(n) and n contain the same power of two. */
  lemma {:induction false} GeometricDivides(k: nat, n: nat)
    ensures Divides(k, Geometric(n)) <==> Divides(k, n)
    decreases k
  {
    hide Geometric;
    if k > 0 {
      GeometricParity(n);
      if n % 2 == 0 {
        var m := n / 2;
        var g := Geometric(m);
        GeometricDouble(m);
        OddFactor(k - 1, g, HalfSum(g));
        GeometricDivides(k - 1, m);
        assert Geometric(n) / 2 == g * HalfSum(g);
      }
    }
  }

  lemma {:induction false} GeometricParity(n: nat)
    ensures Geometric(n) % 2 == n % 2
  {
    if n > 0 {
      GeometricParity(n - 1);
      var g := Geometric(n - 1);
      assert Geometric(n) == A * g + 1;
      hide Geometric;
      OddStep(g);
      NextParity(g, n - 1);
    }
  }

  lemma {:induction false} NextParity(g: int, n: int)
    requires g % 2 == n % 2
    ensures (g + 1) % 2 == (n + 1) % 2
  {
  }

  lemma {:induction false} OddStep(g: int)
    ensures (A * g + 1) % 2 == (g + 1) % 2
  {
    DivModUnique(A * g + 1, 2, 551757622 * g + (g + 1) / 2, (g + 1) % 2);
  }

  /** Two draws give the same y exactly when their distance is a multiple of 2^32. */
  lemma {:induction false} SameDraw(y: word, i: nat, n: nat)
    ensures DrawY(y, i + n) == DrawY(y, i) <==> n % M == 0
  {
    hide DrawY, Exact, Geometric, Pow2, Divides;
    assert Pow2(32) == M by {
      Pow2Table();
    }
    DrawIsExact(y, i);
    DrawIsExact(y, i + n);
    ExactAdd(y, i, n);
    var e := Exact(y, i);
    SameResidue(Exact(e, n), e);
    DividesIs(32, Exact(e, n) - e);
    MoveDivides(32, e, n);
    DividesIs(32, n);
  }

  lemma {:induction false} MoveDivides(k: nat, e: int, n: nat)
    ensures Divides(k, Exact(e, n) - e) <==> Divides(k, n)
  {
    hide Exact, Geometric, Divides;
    ExactMove(e, n);
    var z := (A - 1) * e + C;
    DivModUnique(z, 2, 551757622 * e + 6172, 1);
    OddFactor(k, Geometric(n), z);
    GeometricDivides(k, n);
  }

  lemma {:induction false} SameResidue(a: int, b: int)
    ensures a % M == b % M <==> (a - b) % M == 0
  {
  }

  // ----- every value once -----

  function Orbit(y: word, n: nat): set<word> {
    if n == 0 then {} else Orbit(y, n - 1) + {DrawY(y, n - 1)}
  }

  lemma {:induction false} OrbitMember(y: word, n: nat, v: word) returns (i: nat)
    requires v in Orbit(y, n)
    ensures i < n && DrawY(y, i) == v
  {
    if v == DrawY(y, n - 1) {
      i := n - 1;
    } else {
      i := OrbitMember(y, n - 1, v);
    }
  }

  lemma {:induction false} OrbitSize(y: word, n: nat)
    requires n <= M
    ensures |Orbit(y, n)| == n
  {
    hide DrawY;
    if n > 0 {
      OrbitSize(y, n - 1);
      var v := DrawY(y, n - 1);
      if v in Orbit(y, n - 1) {
        var i := OrbitMember(y, n - 1, v);
        SameDraw(y, i, n - 1 - i);
      }
    }
  }

  /** There are at most n naturals below n. */
  lemma {:induction false} SizeBelow(s: set<int>, n: nat)
    requires forall x :: x in s ==> 0 <= x < n
    ensures |s| <= n
  {
    if n == 0 {
      assert forall x :: x !in s;
      assert s == {};
    } else {
      SizeBelow(s - {n - 1}, n - 1);
    }
  }

  lemma {:induction false} OrbitIsAll(y: word, v: word)
    ensures v in Orbit(y, M)
  {
    hide DrawY, Orbit;
    OrbitSize(y, M);
    if v !in Orbit(y, M) {
      SizeBelow(Orbit(y, M) + {v}, M);
    }
  }

  /** Full period: from any y, the first 2^32 draws take every 32-bit value exactly once, and then
      the run starts over. */
  lemma {:induction false} FullPeriod(y: word, v: word)
    ensures exists i: nat :: i < M && DrawY(y, i) == v
    ensures forall i: nat, j: nat :: i < j < M ==> DrawY(y, i) != DrawY(y, j)
    ensures DrawY(y, M) == y
  {
    hide DrawY;
    forall i: nat, j: nat | i < j < M
      ensures DrawY(y, i) != DrawY(y, j)
    {
      SameDraw(y, i, j - i);
    }
    SameDraw(y, 0, M);
    DrawZero(y);
    OrbitIsAll(y, v);
    var k := OrbitMember(y, M, v);
  }

  lemma {:induction false} DrawZero(y: word)
    ensures DrawY(y, 0) == y
  {
  }

  /** The whole generator: from a nonzero x, two draws leave the same state exactly when their distance
      is a multiple of 2^32 * (2^32 - 1). */
  lemma {:induction false} GeneratorPeriod(x: bv32, y: word, i: nat, n: nat)
    requires x != 0
    ensures DrawX(x, i + n) == DrawX(x, i) && DrawY(y, i + n) == DrawY(y, i) <==> n % (M * N) == 0
  {
    hide DrawY, DrawX;
    RegisterAlive(x, i);
    DrawAdd(x, i, n);
    RegisterPeriod(DrawX(x, i), n);
    SameDraw(y, i, n);
    Neighbours(n);
  }

  /** 2^32 and 2^32 - 1 have no common factor. */
  lemma {:induction false} Neighbours(n: nat)
    ensures n % M == 0 && n % N == 0 <==> n % (M * N) == 0
  {
    if n % M == 0 && n % N == 0 {
      var a, c := n / M, n / N;
      assert n == a * M && n == c * N;
      assert a == (c - a) * N;
      DivModUnique(n, M * N, c - a, 0);
    } else if n % (M * N) == 0 {
      var k := n / (M * N);
      assert n == k * (M * N);
      DivModUnique(n, M, k * N, 0);
      DivModUnique(n, N, k * M, 0);
    }
  }
}
