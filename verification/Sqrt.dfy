/** The bit-by-bit square roots of the soft math library. */
module Sqrt {
  import opened Words
  import opened Ieee
  import opened Doubles

  // ----- what a square root is -----

  /** r is strictly nearer to the root of X * 2^-unit than every other pattern y.  With all values
      counted in units of 2^-unit the root is sqrt(X * 2^unit), and y is farther from it than r
      exactly when the midpoint (y + r) / 2 lies strictly on y's side; squaring removes the root. */
  ghost predicate NearestRoot(D: nat, unit: nat, X: nat, r: nat)
    requires D > 0
  {
    forall y: nat ::
      && (y < r ==> Square(Units(D, y) + Units(D, r)) < 4 * (X * Pow2(unit)))
      && (r < y ==> 4 * (X * Pow2(unit)) < Square(Units(D, y) + Units(D, r)))
  }

  function Square(n: int): int {
    n * n
  }

  lemma {:induction false} SquareLess(a: nat, b: nat)
    requires a < b
    ensures Square(a) < Square(b)
  {
    MulMono(a, b, a);
    assert b * b == a * b + (b - a) * b;
    MulGe(b - a, b);
  }

  /** The digit recurrence after the bit rr of the root of A has been settled: Q is the root
      truncated to multiples of rr and ix the remainder, scaled so that the next bit compares
      directly. */
  ghost predicate Digits(A: nat, Q: nat, ix: int, rr: nat) {
    && ix * rr == 2 * (A - Square(Q))
    && Square(Q) <= A < Square(Q + rr)
    && Multiple(Q, rr)
  }

  ghost predicate Multiple(n: int, d: int) {
    d > 0 && n % d == 0
  }

  lemma {:induction false} SquareAdd(Q: int, r: int)
    ensures Square(Q + r) == Square(Q) + (2 * Q + r) * r
  {
    MulAdd(Q, r, Q + r);
    MulAdd(Q, r, Q);
    MulAdd(Q, r, r);
    MulAdd(2 * Q, r, r);
    MulAssoc(2, Q, r);
  }

  lemma {:induction false} MultipleOfHalf(Q: nat, r: nat)
    requires Multiple(Q, 2 * r)
    ensures Multiple(Q, r) && Multiple(Q + r, r)
  {
    var q, z := DivModDef(Q, 2 * r);
    MulAssoc(q, 2, r);
    DivModUnique(Q, r, 2 * q, 0);
    MulAdd(2 * q, 1, r);
    DivModUnique(Q + r, r, 2 * q + 1, 0);
  }

  lemma {:induction false} ZeroMultiple(d: int)
    requires d > 0
    ensures Multiple(0, d)
  {
    DivModUnique(0, d, 0, 0);
  }

  /** The next bit r is set exactly when 2 * Q + r does not exceed the remainder. */
  lemma {:induction false} DigitStep(A: nat, Q: nat, ix: int, r: nat)
    requires r > 0 && Digits(A, Q, ix, 2 * r)
    ensures 2 * Q + r <= ix ==> Digits(A, Q + r, 2 * (ix - (2 * Q + r)), r)
    ensures 2 * Q + r > ix ==> Digits(A, Q, 2 * ix, r)
  {
    hide Square, Multiple;
    var T := 2 * Q + r;
    MulAssoc(ix, 2, r);
    MulAssoc(2, ix, r);
    SquareAdd(Q, r);
    MultipleOfHalf(Q, r);
    MulAdd(2 * ix, -2 * T, r);
    MulAssoc(-2, T, r);
    if T <= ix {
      MulMono(T, ix, r);
      assert Q + r + r == Q + 2 * r;
    } else {
      MulMono(ix + 1, T, r);
      MulAdd(ix, 1, r);
    }
  }

  /** The remainder stays within four times the next root bit above the root. */
  lemma {:induction false} DigitBound(A: nat, Q: nat, ix: int, rr: nat)
    requires Digits(A, Q, ix, rr)
    ensures 0 <= ix < 4 * Q + 2 * rr
  {
    hide Square;
    SquareAdd(Q, rr);
    if ix < 0 {
      MulLe(ix, rr);
    }
    if ix >= 4 * Q + 2 * rr {
      MulMono(2 * (2 * Q + rr), ix, rr);
      MulAssoc(2, 2 * Q + rr, rr);
    }
  }

  lemma {:induction false} SquareMul(a: int, b: int)
    ensures Square(a * b) == Square(a) * Square(b)
  {
    MulAssoc(a, b, a * b);
    assert b * (a * b) == a * (b * b);
    MulAssoc(a, a, b * b);
  }

  /** From the digits of the root of A to the nearest pattern, for A = 4 X 2^unit / 4^K: dropping
      the last digit of Q, after adding it back in when the root is inexact. */
  lemma {:induction false} RootFromDigits(D: nat, unit: nat, X: nat, A: nat, Q: nat, K: nat, R: nat)
    requires D > 0
    requires Square(Q) <= A < Square(Q + 1) && 2 * D <= Q < 4 * D
    requires 2 * R == if A == Square(Q) then Q else Q + Q % 2
    requires 4 * (X * Pow2(unit)) == A * Square(Pow2(K))
    ensures D <= R <= 2 * D
    ensures NearestRoot(D, unit, X, K * D + R)
  {
    forall y: nat
      ensures y < K * D + R ==> Square(Units(D, y) + Units(D, K * D + R)) < 4 * (X * Pow2(unit))
      ensures K * D + R < y ==> 4 * (X * Pow2(unit)) < Square(Units(D, y) + Units(D, K * D + R))
    {
      if y < K * D + R {
        RootAbove(D, A, Q, K, R, y);
      } else if K * D + R < y {
        RootBelow(D, A, Q, K, R, y);
      }
    }
  }

  lemma {:induction false} RootBelow(D: nat, A: nat, Q: nat, K: nat, R: nat, y: nat)
    requires D > 0 && D <= R <= 2 * D && y > K * D + R
    requires A < Square(Q + 1) && Q <= 2 * R
    ensures A * Square(Pow2(K)) < Square(Units(D, y) + Units(D, K * D + R))
  {
    hide Units, Square, Pow2;
    var r, P := K * D + R, Pow2(K);
    UnitsAt(D, K, R);
    UnitsMono(D, r, y);
    RoundStepUp(D, K, R);
    var N := 2 * R + 1;
    assert Units(D, y) + Units(D, r) >= N * P by {
      MulAdd(2 * R, 1, P);
      MulAssoc(2, R, P);
    }
    SquareMono(N * P, Units(D, y) + Units(D, r));
    SquareMul(N, P);
    SquareMono(Q + 1, N);
    SquarePos(P);
    ScaleLess(A, Square(N), Square(P));
  }

  lemma {:induction false} RootAbove(D: nat, A: nat, Q: nat, K: nat, R: nat, y: nat)
    requires D > 0 && D <= R <= 2 * D && y < K * D + R
    requires Square(Q) <= A && 2 * D <= Q
    requires 2 * R == if A == Square(Q) then Q else Q + Q % 2
    ensures Square(Units(D, y) + Units(D, K * D + R)) < A * Square(Pow2(K))
  {
    hide Units, Square, Pow2;
    var r, P := K * D + R, Pow2(K);
    UnitsAt(D, K, R);
    UnitsMono(D, y, r);
    var S := Units(D, y) + Units(D, r);
    SquarePos(P);
    if R == D {
      var N := 2 * R;
      assert S < N * P by {
        MulAssoc(2, R, P);
      }
      SquareLess(S, N * P);
      SquareMul(N, P);
      MulMono(Square(N), A, Square(P));
    } else {
      var N := 2 * R - 1;
      assert S <= N * P by {
        UnitsStep(D, K, R - 1);
        if y < r - 1 {
          UnitsMono(D, y, r - 1);
        }
        MulAdd(2 * R, -1, P);
        MulAssoc(2, R, P);
      }
      SquareMono(S, N * P);
      SquareMul(N, P);
      if N < Q {
        SquareLess(N, Q);
      }
      ScaleLess(Square(N), A, Square(P));
    }
  }

  lemma {:induction false} SquareMono(a: nat, b: nat)
    requires a <= b
    ensures Square(a) <= Square(b)
  {
    if a < b {
      SquareLess(a, b);
    }
  }

  lemma {:induction false} SquarePos(a: nat)
    requires a > 0
    ensures Square(a) > 0
  {
    MulGe(a, a);
  }

  /** The square of an odd number is odd, so an exact root of an even number is even. */
  lemma {:induction false} SquareParity(Q: nat)
    ensures Square(Q) % 2 == Q % 2
  {
    var h, b := Q / 2, Q % 2;
    assert Square(Q) == 2 * (h * Q) + b * Q by {
      assert Square(Q) == (2 * h + b) * Q;
      MulAdd(2 * h, b, Q);
      MulAssoc(2, h, Q);
    }
    if b == 0 {
      DivModUnique(Square(Q), 2, h * Q, 0);
    } else {
      DivModUnique(Square(Q), 2, h * Q + h, 1);
    }
  }

  // ----- double precision -----

  /** `(w & sign) >> 31`. */
  function TopBit(w: word): nat {
    Shr(And(w, 0x8000_0000), 31)
  }

  lemma {:induction false} TopBitIs(w: word)
    ensures TopBit(w) == w / 0x8000_0000
  {
    hide And, Shr;
    Pow2Table();
    BitAt(w, 31);
  }

  /** The 64-bit value of two words. */
  function Join(hi: int, lo: word): int {
    hi * 0x1_0000_0000 + lo
  }

  lemma {:induction false} HalfPow2(n: nat)
    ensures Shr(Pow2(n), 1) == (if n == 0 then 0 else Pow2(n - 1)) && Pow2(n + 1) == 2 * Pow2(n)
  {
    assert Shr(Pow2(n), 1) == Shr(Pow2(n) / 2, 0);
  }

  /** Doubling a two-word number by hand: the top bit of the low word carries over. */
  method DoubleWords(hi: int32, lo: word) returns (hi': int32, lo': word)
    requires 0 <= 2 * Join(hi, lo) < 0x200_0000_0000_0000
    ensures Join(hi', lo') == 2 * Join(hi, lo) && 0 <= hi'
  {
    hide TopBit;
    TopBitIs(lo);
    hi' := hi + hi + TopBit(lo);
    lo' := ToWord(lo + lo);
  }

  /** The digits that lie in the high word: lines 728 to 740, where s1 and q1 are still zero. */
  method HighDigits(i0: int32, i1: word, ghost A: nat) returns (ix0: int32, ix1: word, s0: int32, q: int32)
    requires 0 <= i0 && Digits(A, 0, Join(i0, i1), 0x40_0000 * 0x1_0000_0000)
    ensures 0 <= ix0 && 0 <= q < 0x40_0000 && s0 == 2 * q
    ensures Digits(A, Join(q, 0), Join(ix0, ix1), 0x1_0000_0000)
  {
    hide Pow2, Shr, Digits;
    ix0, ix1, s0, q := i0, i1, 0, 0;
    var r: word := 0x20_0000;
    ghost var n: nat := 22;
    assert Pow2(21) == 0x20_0000 && Pow2(22) == 0x40_0000 && Pow2(0) == 1 by {
      Pow2Table();
    }
    while r != 0
      invariant r == if n == 0 then 0 else Pow2(n - 1)
      invariant n <= 22
      invariant 0 <= ix0 && s0 == 2 * q && 0 <= q <= 0x40_0000 - Pow2(n)
      invariant Digits(A, Join(q, 0), Join(ix0, ix1), Join(Pow2(n), 0))
      decreases n
    {
      HalfPow2(n - 1);
      DigitStep(A, Join(q, 0), Join(ix0, ix1), Join(r, 0));
      var t: int32 := s0 + r;
      if t <= ix0 {
        s0 := t + r;
        ix0 := ix0 - t;
        q := q + r;
      }
      DigitBound(A, Join(q, 0), 2 * Join(ix0, ix1), Join(r, 0));
      ix0, ix1 := DoubleWords(ix0, ix1);
      r := Shr(r, 1);
      n := n - 1;
    }
  }

  /** Multiples of 2^n below a multiple of 2^n leave room for one more step. */
  lemma {:induction false} RoomBelow(a: nat, b: nat, d: nat)
    requires Multiple(a, d) && Multiple(b, d) && a < b
    ensures a + d <= b
  {
    var q, z := DivModDef(a, d);
    var q', z' := DivModDef(b, d);
    if q' <= q {
      MulMono(q', q, d);
    } else {
      MulMono(q + 1, q', d);
      MulAdd(q, 1, d);
    }
  }

  lemma {:induction false} MultipleOf(x: int, d: int)
    requires d > 0
    ensures Multiple(x * d, d)
  {
    DivModUnique(x * d, d, x, 0);
  }

  lemma {:induction false} Pow2Divides(n: nat, m: nat)
    requires n <= m
    ensures Multiple(Pow2(m), Pow2(n))
  {
    Pow2Add(m - n, n);
    DivModUnique(Pow2(m), Pow2(n), Pow2(m - n), 0);
  }

  /** Adding r to the low word of twice the root cannot wrap, and adding it again wraps to zero at
      most: the low word of 2 * Q is a multiple of 4 * r or there is room above it. */
  lemma {:induction false} LowRoom(s0: int, s1: word, q: int, q1: word, n: nat)
    requires 0 < n <= 32
    requires Join(s0, s1) == 2 * Join(q, q1) && Multiple(q1, Pow2(n))
    ensures s1 + Pow2(n) <= 0x1_0000_0000 && q1 + Pow2(n) <= 0x1_0000_0000
  {
    hide Pow2, Multiple;
    var d := Pow2(n);
    assert Pow2(31) == 0x8000_0000 && Pow2(32) == 0x1_0000_0000 by {
      Pow2Table();
    }
    Pow2Divides(n, 32);
    RoomBelow(q1, 0x1_0000_0000, d);
    if n <= 31 && q1 < 0x8000_0000 {
      Pow2Divides(n, 31);
      RoomBelow(q1, 0x8000_0000, d);
    }
  }

  /** One accepted low digit, on words. */
  lemma {:induction false} LowAccept(s0: int, s1: word, q: int, q1: word, ix0: int, ix1: word, r: word)
    requires r > 0 && s1 + 2 * r <= 0x1_0000_0000 && q1 + r < 0x1_0000_0000
    requires Join(s0, s1) == 2 * Join(q, q1)
    ensures var t1 := s1 + r; var s1' := ToWord(t1 + r);
      var carry := if t1 >= 0x8000_0000 && s1' < 0x8000_0000 then 1 else 0;
      Join(s0 + carry, s1') == 2 * (Join(q, q1) + r)
    ensures var t1 := s1 + r; var borrow := if ix1 < t1 then 1 else 0;
      Join(ix0 - s0 - borrow, ToWord(ix1 - t1)) == Join(ix0, ix1) - (2 * Join(q, q1) + r)
  {
  }

  /** One low digit: the comparison, subtraction and carries of lines 744 to 755. */
  method LowDigit(s0: int32, s1: word, ix0: int32, ix1: word, q1: word, r: word, ghost q: int32)
    returns (s0': int32, s1': word, ix0': int32, ix1': word, q1': word)
    requires r > 0 && s1 + 2 * r <= 0x1_0000_0000 && q1 + r < 0x1_0000_0000
    requires Join(s0, s1) == 2 * Join(q, q1) && 0 <= q < 0x40_0000 && 0 <= ix0
    ensures Join(s0', s1') == 2 * Join(q, q1')
    ensures 2 * Join(q, q1) + r <= Join(ix0, ix1) ==>
      && q1' == q1 + r && Join(q, q1') == Join(q, q1) + r
      && Join(ix0', ix1') == Join(ix0, ix1) - (2 * Join(q, q1) + r)
    ensures 2 * Join(q, q1) + r > Join(ix0, ix1) ==> q1' == q1 && ix0' == ix0 && ix1' == ix1
  {
    hide And, ToWord;
    LowAccept(s0, s1, q, q1, ix0, ix1, r);
    s0', s1', ix0', ix1', q1' := s0, s1, ix0, ix1, q1;
    var t1: word := s1 + r;
    var t: int32 := s0;
    if t < ix0 || (t == ix0 && t1 <= ix1) {
      s1' := ToWord(t1 + r);
      SignBit(t1);
      SignBit(s1');
      if And(t1, 0x8000_0000) == 0x8000_0000 && And(s1', 0x8000_0000) == 0 {
        s0' := s0' + 1;
      }
      ix0' := ix0' - t;
      if ix1 < t1 {
        ix0' := ix0' - 1;
      }
      ix1' := ToWord(ix1 - t1);
      q1' := q1 + r;
    }
  }

  /** One pass of the second loop. */
  method LowStep(s0: int32, s1: word, ix0: int32, ix1: word, q1: word, r: word, q: int32, ghost A: nat)
    returns (s0': int32, s1': word, ix0': int32, ix1': word, q1': word)
    requires r > 0 && s1 + 2 * r <= 0x1_0000_0000 && q1 + 2 * r <= 0x1_0000_0000
    requires Join(s0, s1) == 2 * Join(q, q1) && 0 <= q < 0x40_0000 && 0 <= ix0
    requires Digits(A, Join(q, q1), Join(ix0, ix1), 2 * r)
    ensures Join(s0', s1') == 2 * Join(q, q1') && 0 <= ix0'
    ensures Digits(A, Join(q, q1'), Join(ix0', ix1'), r)
    ensures q1' == q1 || q1' == q1 + r
  {
    hide Digits, Join;
    JoinFacts(q, q1);
    DigitStep(A, Join(q, q1), Join(ix0, ix1), r);
    s0', s1', ix0', ix1', q1' := LowDigit(s0, s1, ix0, ix1, q1, r, q);
    JoinFacts(q, q1');
    DigitBound(A, Join(q, q1'), 2 * Join(ix0', ix1'), r);
    ix0', ix1' := DoubleWords(ix0', ix1');
  }

  /** The digits of the low word: lines 742 to 759. */
  method LowDigits(i0: int32, i1: word, h0: int32, q: int32, ghost A: nat)
    returns (ix0: int32, ix1: word, q1: word)
    requires 0 <= i0 && 0 <= q < 0x40_0000 && h0 == 2 * q
    requires Digits(A, Join(q, 0), Join(i0, i1), 0x1_0000_0000)
    ensures 0 <= ix0 && Digits(A, Join(q, q1), Join(ix0, ix1), 1)
  {
    hide Pow2, Shr, Digits, Multiple;
    ZeroMultiple(0x1_0000_0000);
    ix0, ix1, q1 := i0, i1, 0;
    var s0: int32, s1: word := h0, 0;
    assert Join(s0, s1) == 2 * Join(q, q1);
    hide Join;
    var r: word := 0x8000_0000;
    ghost var n: nat := 32;
    assert Pow2(31) == 0x8000_0000 && Pow2(32) == 0x1_0000_0000 && Pow2(0) == 1 by {
      Pow2Table();
    }
    while r != 0
      invariant r == if n == 0 then 0 else Pow2(n - 1)
      invariant n <= 32
      invariant 0 <= ix0 && Multiple(q1, Pow2(n))
      invariant Join(s0, s1) == 2 * Join(q, q1)
      invariant Digits(A, Join(q, q1), Join(ix0, ix1), Pow2(n))
      decreases n
    {
      HalfPow2(n - 1);
      MultipleOfHalf(q1, r);
      LowRoom(s0, s1, q, q1, n);
      s0, s1, ix0, ix1, q1 := LowStep(s0, s1, ix0, ix1, q1, r, q, A);
      r := Shr(r, 1);
      n := n - 1;
    }
  }

  /** `(w & 2^k) == 0` while w has at most k + 1 bits. */
  lemma {:induction false} LeadBit(w: word, bit: word, k: nat)
    requires bit == Pow2(k) && w < 2 * bit
    ensures And(w, bit) == 0 <==> w < bit
  {
    hide And, Pow2;
    BitAt(w, k);
    DivModUnique(w, bit, if w < bit then 0 else 1, if w < bit then w else w - bit);
  }

  /** `ix0 |= ix1 >> 11; ix1 <<= 21` on ix0 = 0. */
  lemma {:induction false} MoveUp(x: word)
    ensures Or(0, Shr(x, 11)) == x / 0x800
    ensures ToWord(Shl(x, 21)) == x % 0x800 * 0x20_0000
    ensures Join(x / 0x800, x % 0x800 * 0x20_0000) == x * 0x20_0000
  {
    hide Shr, Shl, Pow2;
    assert Pow2(11) == 0x800 && Pow2(21) == 0x20_0000 by {
      Pow2Table();
    }
    ShlIsMul(x, 21);
    ShrIsDiv(x, 11);
    DivModUnique(x * 0x20_0000, 0x1_0000_0000, x / 0x800, x % 0x800 * 0x20_0000);
  }

  /** Lines 704 to 709: whole words of leading zeros. */
  method SkipZeroWord(hi: word, lo: word) returns (ix0: word, ix1: word, m: int32, ghost sh: nat)
    requires hi < 0x10_0000 && Join(hi, lo) > 0
    ensures 0 < ix0 < 0x20_0000 && m + sh == 0 && sh <= 42
    ensures Join(ix0, ix1) == Join(hi, lo) * Pow2(sh)
    ensures sh == 0 ==> ix0 < 0x10_0000
    ensures sh > 0 ==> exists c: nat :: ix1 == c * 0x20_0000
  {
    hide Pow2, Shr, Shl, ToWord, Or;
    ix0, ix1, m, sh := hi, lo, 0, 0;
    assert Pow2(0) == 1 && Pow2(21) == 0x20_0000 by {
      Pow2Table();
    }
    while ix0 == 0
      invariant m + sh == 0 && ix0 < 0x20_0000 && 0 < Join(ix0, ix1) == Join(hi, lo) * Pow2(sh)
      invariant sh == 0 ==> ix0 < 0x10_0000
      invariant sh > 0 ==> exists c: nat :: ix1 == c * 0x20_0000
      invariant sh == 0 || sh == 21 || (sh == 42 && ix0 > 0)
      invariant sh == 21 && ix0 == 0 ==> ix1 >= 0x20_0000
      decreases 42 - sh
    {
      Pow2Add(sh, 21);
      MulAssoc(Join(hi, lo), Pow2(sh), Pow2(21));
      MoveUp(ix1);
      m := m - 21;
      ix0 := Or(ix0, Shr(ix1, 11));
      ix1 := ToWord(Shl(ix1, 21));
      sh := sh + 21;
    }
  }

  /** Or-ing in a multiple of 2^21 cannot be seen through the mask 0x000fffff. */
  lemma {:induction false} JunkAbove(x: word, y: word, c: nat)
    requires 0x10_0000 <= x < 0x20_0000 && y == c * 0x20_0000
    ensures Or(x, y) < 0x1_0000_0000 && Or(x, y) % 0x10_0000 == x - 0x10_0000
  {
    hide Or, Shl, Pow2;
    assert Pow2(21) == 0x20_0000 && Pow2(32) == 0x1_0000_0000 by {
      Pow2Table();
    }
    ShlIsMul(c, 21);
    OrDisjoint(c, 21, x);
    OrComm(x, y);
    OrBound(x, y, 32);
    DivModUnique(x + y, 0x10_0000, 2 * c + 1, x - 0x10_0000);
  }

  /** The bits of the low word that fill the gap left by the shift. */
  lemma {:induction false} FillGap(x: word, y: word, i: nat)
    requires 0 < i <= 20 && x * Pow2(i) < 0x20_0000
    ensures var h := Or(Shl(x, i), Shr(y, 32 - i));
      h == x * Pow2(i) + Shr(y, 32 - i) < 0x20_0000
    ensures x * Pow2(i) + Shr(y, 32 - i) < 0x20_0000
    ensures Join(x * Pow2(i) + Shr(y, 32 - i), ToWord(Shl(y, i))) == Join(x, y) * Pow2(i)
  {
    hide Or, Shl, Shr, Pow2, ToWord, Multiple;
    var d := Pow2(i);
    assert Pow2(21) == 0x20_0000 by {
      Pow2Table();
    }
    WordShift(y, i);
    OrDisjoint(x, i, Shr(y, 32 - i));
    ShlIsMul(x, i);
    Pow2Divides(i, 21);
    MultipleOf(x, d);
    RoomBelow(x * d, 0x20_0000, d);
    MulAdd(x * 0x1_0000_0000, y, d);
    MulAssoc(x, 0x1_0000_0000, d);
  }

  lemma {:induction false} ShlStep(x: nat, i: nat)
    ensures Shl(x, i + 1) == 2 * Shl(x, i) && Shl(Shl(x, i), 1) == 2 * Shl(x, i) && Shl(x, 0) == x
  {
    assert Shl(Shl(x, i), 0) == Shl(x, i);
  }

  /** Lines 710 to 711, and 636 to 637 for floats: shift until the hidden bit leads. */
  method ShiftToLead(j0: word, bit: word, ghost k: nat) returns (ix0: word, i: nat)
    requires bit == Pow2(k) && k < 31 && 0 < j0 < 2 * bit
    ensures i <= k && ix0 == Shl(j0, i)
    ensures bit <= ix0 < 2 * bit
  {
    hide Shl, And, Pow2;
    ix0, i := j0, 0;
    ShlStep(j0, 0);
    LeadBit(ix0, bit, k);
    assert Pow2(0) == 1 && 2 * bit <= 0x8000_0000 by {
      Pow2Table();
      Pow2Mono(k, 31);
    }
    while And(ix0, bit) == 0
      invariant 0 < ix0 < 2 * bit && ix0 == Shl(j0, i)
      invariant And(ix0, bit) == 0 <==> ix0 < bit
      invariant Pow2(i) <= ix0
      decreases 2 * bit - ix0
    {
      ShlStep(j0, i);
      HalfPow2(i);
      ix0 := Shl(ix0, 1);
      i := i + 1;
      LeadBit(ix0, bit, k);
    }
    if i > k {
      Pow2Mono(k, i);
    }
  }

  /** Lines 710 to 714.  For i = 0 the shift by 32 is not defined by C; shiftKeeps says whether the
      machine leaves ix1 unchanged or gives 0. */
  method AlignMantissa(j0: word, j1: word, shiftKeeps: bool) returns (ix0: word, ix1: word, i: nat)
    requires 0 < j0 < 0x20_0000
    requires j0 >= 0x10_0000 ==> exists c: nat :: j1 == c * 0x20_0000
    ensures i <= 20
    ensures Join(ix0 % 0x10_0000 + 0x10_0000, ix1) == Join(j0, j1) * Pow2(i)
  {
    hide Pow2, Shl, Shr, And, Or, ToWord;
    assert Pow2(20) == 0x10_0000 && Pow2(0) == 1 by {
      Pow2Table();
    }
    ix0, i := ShiftToLead(j0, 0x0010_0000, 20);
    ShlIsMul(j0, i);
    var filled: word;
    if i == 0 {
      filled := if shiftKeeps then j1 else 0;
      ghost var c: nat :| j1 == c * 0x20_0000;
      JunkAbove(ix0, filled, if shiftKeeps then c else 0);
      UnshiftedWord(j1);
    } else {
      filled := Shr(j1, 32 - i);
      FillGap(j0, j1, i);
      LeadAlone(ix0 + filled);
    }
    ix0 := Or(ix0, filled);
    ix1 := ToWord(Shl(j1, i));
  }

  lemma {:induction false} UnshiftedWord(w: word)
    ensures ToWord(Shl(w, 0)) == w
  {
  }

  lemma {:induction false} LeadAlone(w: nat)
    ensures 0x10_0000 <= w < 0x20_0000 ==> w % 0x10_0000 + 0x10_0000 == w
  {
  }

  lemma {:induction false} LastBit(w: word)
    ensures And(w, 1) == w % 2
  {
    AndLow(w, 1);
    assert Low(w, 1) == w % 2;
  }

  /** Lines 762 to 776: under round-to-nearest both probes give 1.0, so an inexact root is
      incremented exactly when its last digit is set. */
  method RoundRoot(h: int32, l: word, ix0: int32, ix1: word) returns (q: int32, q1: word)
    requires 0 <= h < 0x40_0000 && 0 <= ix0
    ensures 0 <= q
    ensures Join(q, q1) == Join(h, l) + if Join(ix0, ix1) != 0 then l % 2 else 0
  {
    hide Units, FAdd, FSub, And, Or;
    q, q1 := h, l;
    if Or(ix0, ix1) != 0 {
      var z := FSub(ONE, TINY);
      if ONE.Value() <= z.Value() {
        z := FAdd(ONE, TINY);
        if q1 == 0xFFFF_FFFF {
          q1 := 0;
          q := q + 1;
        } else if z.Value() > ONE.Value() {
          if q1 == 0xFFFF_FFFE {
            q := q + 1;
          }
          q1 := ToWord(q1 + 2);
        } else {
          LastBit(q1);
          q1 := q1 + And(q1, 1);
        }
      }
    }
    InexactProbe();
  }

  /** Lines 777 to 781: the halved root becomes the fraction, and the carry of its leading bit
      completes the exponent field. */
  method PackRoot(q: int32, q1: word, m: int32) returns (z: Double)
    requires 0 <= q <= 0x40_0000 && -0x3FE <= m < 0x400
    ensures !z.Negative() && z.Mag() == (m + 0x3FE) * D52 + Join(q, q1) / 2
  {
    hide Or, And, Shr;
    ShrOne(q);
    ShrOne(q1);
    LastBit(q);
    var ix0: int32 := Shr(q, 1) + 0x3FE0_0000;
    var ix1: word := Shr(q1, 1);
    if And(q, 1) == 1 {
      SetSign(ix1);
      ix1 := Or(ix1, 0x8000_0000);
    }
    ix0 := ix0 + m * 0x10_0000;
    z := Double(ix0, ix1);
  }

  lemma {:induction false} SetSign(w: word)
    requires w < 0x8000_0000
    ensures Or(w, 0x8000_0000) == w + 0x8000_0000
  {
    hide Or, Shl, Pow2;
    assert Pow2(31) == 0x8000_0000 by {
      Pow2Table();
    }
    ShlOne(31);
    OrDisjoint(1, 31, w);
    OrComm(w, 0x8000_0000);
  }

  /** Exponents of the argument, the halved exponent and the root: with X 2^sh = M 2^e, the
      radicand A = M 2^o 2^(p+2) is 4 X 2^(b+p) / 4^K. */
  lemma {:induction false} ScaleLink(X: nat, M: nat, e: nat, sh: nat, o: nat, K: nat, b: nat, p: nat)
    requires X * Pow2(sh) == M * Pow2(e)
    requires e + b == o + 2 * K + sh
    ensures 4 * (X * Pow2(b + p)) == M * Pow2(o) * Pow2(p + 2) * Square(Pow2(K))
  {
    hide Pow2;
    var t := Pow2(sh);
    var L := 4 * (X * Pow2(b + p));
    var R := M * Pow2(o) * Pow2(p + 2) * Square(Pow2(K));
    calc {
      L * t;
      4 * (X * Pow2(b + p)) * t;
      { MulAssoc(4, X * Pow2(b + p), t); MulSwap(X, Pow2(b + p), t); }
      4 * (X * t * Pow2(b + p));
      4 * (M * Pow2(e) * Pow2(b + p));
      { MulAssoc(M, Pow2(e), Pow2(b + p)); Pow2Add(e, b + p); }
      4 * (M * Pow2(e + (b + p)));
      { Pow2Two(e + (b + p)); MulSwap(M, 4, Pow2(e + (b + p))); MulAssoc(M, 4, Pow2(e + (b + p))); }
      M * Pow2(e + (b + p) + 2);
    }
    calc {
      R * t;
      M * Pow2(o) * Pow2(p + 2) * Square(Pow2(K)) * t;
      { MulAssoc(M, Pow2(o), Pow2(p + 2)); Pow2Add(o, p + 2); }
      M * Pow2(o + (p + 2)) * Square(Pow2(K)) * t;
      { Pow2Add(K, K); }
      M * Pow2(o + (p + 2)) * Pow2(K + K) * t;
      { MulAssoc(M, Pow2(o + (p + 2)), Pow2(K + K)); Pow2Add(o + (p + 2), K + K); }
      M * Pow2(o + (p + 2) + (K + K)) * t;
      { MulAssoc(M, Pow2(o + (p + 2) + (K + K)), t); Pow2Add(o + (p + 2) + (K + K), sh); }
      M * Pow2(o + (p + 2) + (K + K) + sh);
    }
    assert e + (b + p) + 2 == o + (p + 2) + (K + K) + sh;
    MulCancel(L, R, t);
  }

  lemma {:induction false} Pow2Two(e: nat)
    ensures Pow2(e + 2) == 4 * Pow2(e)
  {
  }

  /** The loops start from remainder 2 M' and root 0. */
  lemma {:induction false} DigitsStart(A: nat, M: nat, rr: nat)
    requires 0 < M < rr && A == M * rr
    ensures Digits(A, 0, 2 * M, rr)
  {
    MulAssoc(2, M, rr);
    ScaleLess(M, rr, rr);
    ZeroMultiple(rr);
  }

  /** The root has its full number of digits. */
  lemma {:induction false} DigitsEnd(A: nat, Q: nat, h: nat)
    requires A < Square(Q + 1) && Square(h) <= A
    ensures Q >= h
  {
    if Q < h {
      SquareMono(Q + 1, h);
    }
  }

  /** `(w & 0x000fffff) | 0x00100000`. */
  lemma {:induction false} HiddenBit(w: word)
    ensures Or(And(w, 0x000F_FFFF), 0x0010_0000) == w % 0x10_0000 + 0x10_0000
  {
    hide And, Or, Shl, Pow2, Low;
    assert Pow2(20) == 0x10_0000 by {
      Pow2Table();
    }
    AndLow(w, 20);
    ShrIsDiv(w, 20);
    ShlOne(20);
    OrDisjoint(1, 20, w % 0x10_0000);
    OrComm(w % 0x10_0000, 0x10_0000);
  }

  lemma {:induction false} HighShift20(w: word)
    ensures Shr(w, 20) == w / 0x10_0000
  {
    hide Shr, Low, Pow2;
    assert Pow2(20) == 0x10_0000 by {
      Pow2Table();
    }
    ShrIsDiv(w, 20);
  }

  /** The fields of a positive finite double. */
  lemma {:induction false} FieldsOf(x: Double)
    requires x.Finite() && !x.Negative() && x.Mag() > 0
    ensures x.hi / 0x10_0000 < 0x7FF
    ensures x.hi < 0x10_0000 ==> Units(D52, x.Mag()) == Join(x.hi, x.lo) > 0
    ensures x.hi >= 0x10_0000 ==>
      Units(D52, x.Mag()) == Join(x.hi % 0x10_0000 + 0x10_0000, x.lo) * Pow2(x.hi / 0x10_0000 - 1)
  {
    hide Pow2;
    Fields(x);
    var k, m := Split(D52, x.Mag());
  }

  /** Lines 703 to 715: a subnormal x is shifted up until bit 52 leads. */
  method NormalizeSubnormal(hi: word, lo: word, shiftKeeps: bool)
    returns (ix0: word, ix1: word, m: int32, ghost sh: nat)
    requires hi < 0x10_0000 && Join(hi, lo) > 0
    ensures Join(ix0 % 0x10_0000 + 0x10_0000, ix1) == Join(hi, lo) * Pow2(sh)
    ensures m == 1 - sh && sh <= 62
  {
    hide Pow2;
    var j0, j1, i;
    ghost var z;
    j0, j1, m, z := SkipZeroWord(hi, lo);
    ix0, ix1, i := AlignMantissa(j0, j1, shiftKeeps);
    m := m - i + 1;
    sh := z + i;
    Pow2Add(z, i);
    MulAssoc(Join(hi, lo), Pow2(z), Pow2(i));
  }

  /** Lines 702 to 717: a positive finite x is written as M 2^(m - 52) with M of 53 bits. */
  method Normalize(x: Double, shiftKeeps: bool)
    returns (ix0: int32, ix1: word, m: int32, ghost e: nat, ghost sh: nat)
    requires x.Finite() && !x.Negative() && x.Mag() > 0
    ensures 0x10_0000 <= ix0 < 0x20_0000
    ensures Units(D52, x.Mag()) * Pow2(sh) == Join(ix0, ix1) * Pow2(e)
    ensures m + 0x3FE + sh == e && -1084 <= m <= 1023
  {
    hide Units, Pow2, Or, And, Shr, Join;
    FieldsOf(x);
    assert Pow2(0) == 1 by {
      Pow2Table();
    }
    HighShift20(x.hi);
    m := Shr(x.hi, 20);
    var w0: word, w1: word := x.hi, x.lo;
    e, sh := if m == 0 then 0 else m - 1, 0;
    if m == 0 {
      w0, w1, m, sh := NormalizeSubnormal(x.hi, x.lo, shiftKeeps);
    }
    m := m - 1023;
    HiddenBit(w0);
    ix0 := Or(And(w0, 0x000F_FFFF), 0x0010_0000);
    ix1 := w1;
  }

  /** Lines 718 to 722: halving an odd exponent takes one factor of two into the mantissa. */
  method EvenExponent(i0: int32, i1: word, m: int32) returns (ix0: int32, ix1: word)
    requires 0x10_0000 <= i0 < 0x20_0000
    ensures D52 <= Join(ix0, ix1) < 4 * D52 && 0 <= ix0
    ensures Join(ix0, ix1) == Join(i0, i1) * Pow2(m % 2)
  {
    hide And, Pow2, ToWord;
    assert Pow2(0) == 1 && Pow2(1) == 2 by {
      Pow2Table();
    }
    ix0, ix1 := i0, i1;
    OddWord(m);
    if And(ToWord(m), 1) != 0 {
      ix0, ix1 := DoubleWords(ix0, ix1);
    }
  }

  lemma {:induction false} OddWord(m: int32)
    ensures And(ToWord(m), 1) == m % 2
  {
    LastBit(ToWord(m));
  }

  /** Lines 724 to 759 together: the digits of the root of M 2^54. */
  method RootDigits(i0: int32, i1: word, ghost A: nat) returns (ix0: int32, ix1: word, q: int32, q1: word)
    requires D52 <= Join(i0, i1) < 4 * D52 && A == Join(i0, i1) * (4 * D52)
    ensures 0 <= ix0 && 0 <= q < 0x40_0000
    ensures Digits(A, Join(q, q1), Join(ix0, ix1), 1)
  {
    hide Digits;
    DigitsStart(A, Join(i0, i1), 4 * D52);
    ix0, ix1 := DoubleWords(i0, i1);
    var s0;
    ix0, ix1, s0, q := HighDigits(ix0, ix1, A);
    ix0, ix1, q1 := LowDigits(ix0, ix1, s0, q, A);
  }

  /** From the exponents and the digits to the nearest pattern of a format with p fraction bits
      and exponent bias b + 1. */
  lemma {:induction false} RootOfParts(D: nat, p: nat, b: nat, X: nat, M: nat, e: nat, sh: nat, m: int, K: nat,
                    M': nat, A: nat, Q: nat, ix: int, R: nat)
    requires D == Pow2(p) && X * Pow2(sh) == M * Pow2(e) && m + b + sh == e && K == m / 2 + b
    requires D <= M' && M' == M * Pow2(m % 2) && A == M' * (4 * D)
    requires Digits(A, Q, ix, 1) && Q < 4 * D
    requires R == (Q + if ix != 0 then Q % 2 else 0) / 2
    ensures D <= R <= 2 * D
    ensures NearestRoot(D, b + p, X, K * D + R)
  {
    hide Units, Pow2, Digits, NearestRoot, Square;
    assert 4 * (X * Pow2(b + p)) == A * Square(Pow2(K)) by {
      Pow2Two(p);
      ScaleLink(X, M, e, sh, m % 2, K, b, p);
    }
    RootDigitsOf(D, A, M', Q, ix);
    RootFromDigits(D, b + p, X, A, Q, K, R);
  }

  /** Square root of a positive finite double: lines 702 to 783. */
  method SqrtPositive(x: Double, shiftKeeps: bool) returns (z: Double)
    requires x.Finite() && !x.Negative() && x.Mag() > 0
    ensures z.Finite() && !z.Negative()
    ensures NearestRoot(D52, UNIT, Units(D52, x.Mag()), z.Mag())
  {
    hide Units, Pow2, Digits, NearestRoot, Square, Join;
    ghost var X := Units(D52, x.Mag());
    var ix0, ix1, m;
    ghost var e, sh;
    ix0, ix1, m, e, sh := Normalize(x, shiftKeeps);
    ghost var M, m0 := Join(ix0, ix1), m;
    ix0, ix1 := EvenExponent(ix0, ix1, m);
    ghost var M' := Join(ix0, ix1);
    m := m / 2;
    var q, q1;
    ix0, ix1, q, q1 := RootDigits(ix0, ix1, M' * (4 * D52));
    ghost var Q, ix := Join(q, q1), Join(ix0, ix1);
    JoinFacts(q, q1);
    q, q1 := RoundRoot(q, q1, ix0, ix1);
    JoinFacts(q, q1);
    assert Pow2(52) == D52 by {
      Pow2Table();
    }
    RootOfParts(D52, 52, 0x3FE, X, M, e, sh, m0, m + 0x3FE, M', M' * (4 * D52), Q, ix, Join(q, q1) / 2);
    z := PackRoot(q, q1, m);
  }

  lemma {:induction false} JoinFacts(q: int32, q1: word)
    ensures Join(q, q1) % 2 == q1 % 2
    ensures 0 <= q ==> 0 <= Join(q, q1)
    ensures q < 0x40_0000 ==> Join(q, q1) < 4 * D52
    ensures Join(q, q1) <= 4 * D52 ==> q <= 0x40_0000
  {
    DivModUnique(Join(q, q1), 2, q * 0x8000_0000 + q1 / 2, q1 % 2);
  }

  /** What the digits say once the last one is settled. */
  lemma {:induction false} RootDigitsOf(D: nat, A: nat, M: nat, Q: nat, ix: int)
    requires D <= M && A == M * (4 * D) && Digits(A, Q, ix, 1)
    ensures Square(Q) <= A < Square(Q + 1) && 2 * D <= Q
    ensures ix == 0 <==> A == Square(Q)
    ensures ix == 0 ==> Q % 2 == 0
  {
    hide Square;
    var H := M * D;
    assert A == 4 * H;
    assert Square(2 * D) == 4 * (D * D) by {
      SquareOf(2 * D);
    }
    MulMono(D, M, D);
    DigitsEnd(A, Q, 2 * D);
    SquareParity(Q);
  }

  lemma {:induction false} SquareOf(n: int)
    ensures Square(n) == n * n
  {
  }

  /** freebsd_sqrt.  x * x + x on infinities and NaNs, and (x - x) / (x - x), are given by their
      class: a quiet NaN unless the operand is +infinity. */
  method SqrtDouble(x: Double, shiftKeeps: bool) returns (z: Double)
    ensures x.IsNaN() || (x.Negative() && x.Mag() > 0) ==> z.IsNaN()
    ensures x.Mag() == 0 || (x.IsInf() && !x.Negative()) ==> z == x
    ensures x.Finite() && !x.Negative() && x.Mag() > 0 ==> z.Finite() && !z.Negative()
    ensures x.Finite() && !x.Negative() && x.Mag() > 0 ==>
      NearestRoot(D52, UNIT, Units(D52, x.Mag()), z.Mag())
  {
    hide Units, NearestRoot, And, Or;
    ExponentAllOnes(x);
    MagZero(x);
    if And(x.hi, 0x7FF0_0000) == 0x7FF0_0000 {
      return if x.IsNaN() || x.Negative() then QNAN else x;
    }
    if Signed(x.hi) <= 0 {
      if Or(And(x.hi, Not(0x8000_0000)), x.lo) == 0 {
        return x;
      } else if Signed(x.hi) < 0 {
        return QNAN;
      }
    }
    z := SqrtPositive(x, shiftKeeps);
  }

  lemma {:induction false} ExponentAllOnes(x: Double)
    ensures And(x.hi, 0x7FF0_0000) == 0x7FF0_0000 <==> !x.Finite()
  {
    hide And, Shl, Shr, Low, Pow2;
    assert Pow2(11) == 0x800 && Pow2(20) == 0x10_0000 by {
      Pow2Table();
    }
    AndField(x.hi, 20, 11);
    ShlIsMul(0x7FF, 20);
    ShrIsDiv(x.hi, 20);
    var e := x.hi / 0x10_0000;
    ShrIsDiv(e, 11);
    ShlIsMul(e % 0x800, 20);
  }

  // ----- what NearestRoot pins down -----

  lemma {:induction false} NearestRootUnique(D: nat, unit: nat, X: nat, r: nat, r': nat)
    requires D > 0 && NearestRoot(D, unit, X, r) && NearestRoot(D, unit, X, r')
    ensures r == r'
  {
    hide Units;
    var u, u' := Units(D, r), Units(D, r');
  }

  /** An argument with a representable root gets that root. */
  lemma {:induction false} ExactRoot(D: nat, unit: nat, X: nat, r: nat, y: nat)
    requires D > 0 && NearestRoot(D, unit, X, r) && X * Pow2(unit) == Square(Units(D, y))
    ensures r == y
  {
    hide Units, Square;
    var u, v := Units(D, y), Units(D, r);
    SquareMul(2, u);
    SquareOf(2);
    if y < r {
      UnitsMono(D, y, r);
      SquareLess(2 * u, u + v);
    } else if r < y {
      UnitsMono(D, r, y);
      SquareLess(u + v, 2 * u);
    }
  }

  // ----- single precision -----

  const D23: nat := 0x80_0000
  const INF32: nat := 0x7F80_0000
  /** Floats are counted in units of 2^-149. */
  const UNIT32: nat := 149

  /** Lines 646 to 660: the digit loop on one word.  The declared types carry the claim that no
      signed variable overflows. */
  method FloatDigits(i: int32, ghost A: nat) returns (ix: int32, q: int32)
    requires D23 <= i < 4 * D23 && A == i * (4 * D23)
    ensures 0 <= ix && 0 <= q < 4 * D23 && Digits(A, q, ix, 1)
  {
    hide Pow2, Shr, Square, Digits;
    DigitsStart(A, i, 4 * D23);
    ix := i + i;
    var s: int32;
    q, s := 0, 0;
    var r: word := 0x0100_0000;
    ghost var n: nat := 25;
    assert Pow2(24) == 0x100_0000 && Pow2(25) == 0x200_0000 && Pow2(0) == 1 by {
      Pow2Table();
    }
    while r != 0
      invariant r == if n == 0 then 0 else Pow2(n - 1)
      invariant n <= 25
      invariant 0 <= ix && s == 2 * q && 0 <= q <= 4 * D23 - Pow2(n)
      invariant Digits(A, q, ix, Pow2(n))
      decreases n
    {
      HalfPow2(n - 1);
      DigitStep(A, q, ix, r);
      var t: int32 := s + r;
      if t <= ix {
        s := t + r;
        ix := ix - t;
        q := q + r;
      }
      DigitBound(A, q, 2 * ix, r);
      ix := ix + ix;
      r := Shr(r, 1);
      n := n - 1;
    }
  }

  /** Lines 662 to 672. */
  method RoundFloatRoot(h: int32, ix: int32) returns (q: int32)
    requires 0 <= h < 4 * D23
    ensures q == h + if ix != 0 then h % 2 else 0
  {
    hide Units, FAdd, FSub, And;
    q := h;
    if ix != 0 {
      var z := FSub(ONE, TINY);
      if ONE.Value() <= z.Value() {
        z := FAdd(ONE, TINY);
        if z.Value() > ONE.Value() {
          q := q + 2;
        } else {
          LastBit(q);
          q := q + And(q, 1);
        }
      }
    }
    InexactProbe();
  }

  /** `(w & 0x007fffff) | 0x00800000`. */
  lemma {:induction false} FloatHiddenBit(w: word)
    ensures Or(And(w, 0x007F_FFFF), 0x0080_0000) == w % 0x80_0000 + 0x80_0000
  {
    hide And, Or, Shl, Pow2, Low;
    assert Pow2(23) == 0x80_0000 by {
      Pow2Table();
    }
    AndLow(w, 23);
    ShrIsDiv(w, 23);
    ShlOne(23);
    OrDisjoint(1, 23, w % 0x80_0000);
    OrComm(w % 0x80_0000, 0x80_0000);
  }

  lemma {:induction false} FloatShift(w: word)
    ensures Shr(w, 23) == w / 0x80_0000
  {
    hide Shr, Low, Pow2;
    assert Pow2(23) == 0x80_0000 by {
      Pow2Table();
    }
    ShrIsDiv(w, 23);
  }

  /** Lines 633 to 641. */
  method NormalizeFloat(w: word) returns (ix: int32, m: int32, ghost e: nat, ghost sh: nat)
    requires 0 < w < INF32
    ensures D23 <= ix < 2 * D23
    ensures Units(D23, w) * Pow2(sh) == ix * Pow2(e)
    ensures m + 0x7E + sh == e && -149 <= m <= 127
  {
    hide Pow2, Or, And, Shr, Shl;
    assert Pow2(0) == 1 && Pow2(23) == 0x80_0000 by {
      Pow2Table();
    }
    FloatShift(w);
    m := Shr(w, 23);
    var x: word := w;
    e, sh := if m == 0 then 0 else m - 1, 0;
    if m == 0 {
      var i;
      x, i := ShiftToLead(w, 0x0080_0000, 23);
      ShlIsMul(w, i);
      m := m - i + 1;
      sh := i;
    }
    m := m - 127;
    FloatHiddenBit(x);
    ix := Or(And(x, 0x007F_FFFF), 0x0080_0000);
  }

  /** Lines 633 to 675 for a positive finite float. */
  method SqrtFloatPositive(w: word) returns (z: word)
    requires 0 < w < INF32
    ensures z < INF32 && NearestRoot(D23, UNIT32, Units(D23, w), z)
  {
    hide Units, NearestRoot, And, Pow2, Digits, Square, Shr, ToWord;
    var ix, m;
    ghost var e, sh;
    ix, m, e, sh := NormalizeFloat(w);
    ghost var M, m0 := ix, m;
    OddWord(m);
    assert Pow2(0) == 1 && Pow2(1) == 2 && Pow2(23) == D23 by {
      Pow2Table();
    }
    if And(ToWord(m), 1) != 0 {
      ix := ix + ix;
    }
    m := m / 2;
    ghost var M', A := ix, ix * (4 * D23);
    var q;
    ix, q := FloatDigits(ix, A);
    ghost var Q := q;
    q := RoundFloatRoot(q, ix);
    RootOfParts(D23, 23, 0x7E, Units(D23, w), M, e, sh, m0, m + 0x7E, M', A, Q, ix, q / 2);
    ShrOne(q);
    ix := Shr(q, 1) + 0x3F00_0000;
    ix := ix + m * 0x80_0000;
    z := ix;
  }

  /** freebsd_sqrtf on the bits of a float. */
  method SqrtFloat(w: word) returns (z: word)
    ensures w % 0x8000_0000 > INF32 || (w >= 0x8000_0000 && w % 0x8000_0000 > 0) ==> z % 0x8000_0000 > INF32
    ensures w % 0x8000_0000 == 0 || w == INF32 ==> z == w
    ensures 0 < w < INF32 ==> z < INF32 && NearestRoot(D23, UNIT32, Units(D23, w), z)
  {
    hide Units, NearestRoot, And;
    FloatTests(w);
    if And(w, 0x7F80_0000) == 0x7F80_0000 {
      return if w == INF32 then w else 0x7FC0_0000;
    }
    if Signed(w) <= 0 {
      if And(w, Not(0x8000_0000)) == 0 {
        return w;
      } else if Signed(w) < 0 {
        return 0x7FC0_0000;
      }
    }
    z := SqrtFloatPositive(w);
  }

  lemma {:induction false} FloatTests(w: word)
    ensures And(w, 0x7F80_0000) == 0x7F80_0000 <==> w % 0x8000_0000 >= INF32
    ensures And(w, Not(0x8000_0000)) == w % 0x8000_0000
  {
    hide And, Shl, Shr, Low, Pow2;
    assert Pow2(8) == 0x100 && Pow2(23) == 0x80_0000 && Pow2(31) == 0x8000_0000 by {
      Pow2Table();
    }
    AndField(w, 23, 8);
    ShlIsMul(0xFF, 23);
    ShrIsDiv(w, 23);
    var e := w / 0x80_0000;
    ShrIsDiv(e, 8);
    ShlIsMul(e % 0x100, 23);
    AndLow(w, 31);
    ShrIsDiv(w, 31);
  }
}
