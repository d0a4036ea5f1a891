/** 32-bit words, powers of two and the bitwise operators of C on unsigned values.

    A word is a natural number below 2^32.  The bitwise operators are defined bit by bit on
    natural numbers, and the lemmas below say what they do with the masks the sources use,
    so that all arithmetic about bit fields can be done with `/` and `%`. */
module Words {

  type word = w: int | 0 <= w < 0x1_0000_0000
  type byte = b: int | 0 <= b < 256
  type int32 = i: int | -0x8000_0000 <= i < 0x8000_0000

  datatype Option<T> = None | Some(value: T)

  /** Conversion to u_int32_t: reduction modulo 2^32. */
  function ToWord(n: int): word {
    n % 0x1_0000_0000
  }

  /** The two's complement reading of a word as an int32_t. */
  function Signed(w: word): int32 {
    if w < 0x8000_0000 then w else w - 0x1_0000_0000
  }

  function Pow2(e: nat): (r: nat)
    ensures r > 0
  {
    if e == 0 then 1 else 2 * Pow2(e - 1)
  }

  lemma {:induction false} Pow2Add(a: nat, b: nat)
    ensures Pow2(a + b) == Pow2(a) * Pow2(b)
  {
    if a == 0 {
    } else {
      Pow2Add(a - 1, b);
      assert Pow2(a + b) == 2 * Pow2((a - 1) + b);
      MulAssoc(2, Pow2(a - 1), Pow2(b));
    }
  }

  lemma {:induction false} Pow2Mono(a: nat, b: nat)
    requires a <= b
    ensures Pow2(a) <= Pow2(b)
    ensures a < b ==> 2 * Pow2(a) <= Pow2(b)
    decreases b
  {
    if a < b {
      Pow2Mono(a, b - 1);
    }
  }

  lemma {:induction false} Pow2Table()
    ensures Pow2(4) == 0x10 && Pow2(7) == 0x80 && Pow2(8) == 0x100 && Pow2(11) == 0x800 && Pow2(12) == 0x1000
    ensures Pow2(16) == 0x1_0000 && Pow2(19) == 0x8_0000 && Pow2(20) == 0x10_0000 && Pow2(21) == 0x20_0000
    ensures Pow2(0) == 1 && Pow2(1) == 2 && Pow2(22) == 0x40_0000 && Pow2(23) == 0x80_0000 && Pow2(24) == 0x100_0000 && Pow2(25) == 0x200_0000
    ensures Pow2(31) == 0x8000_0000 && Pow2(32) == 0x1_0000_0000
    ensures Pow2(52) == 0x10_0000_0000_0000 && Pow2(53) == 0x20_0000_0000_0000 && Pow2(54) == 0x40_0000_0000_0000
  {
    Pow2Chain(0, 4);
    Pow2Chain(4, 8);
    Pow2Chain(8, 12);
    Pow2Chain(12, 16);
    Pow2Chain(16, 20);
    Pow2Chain(20, 24);
    Pow2Chain(24, 28);
    Pow2Chain(28, 32);
    Pow2Add(32, 20);
  }

  lemma {:induction false} Pow2At32()
    ensures Pow2(32) == 0x1_0000_0000
  {
    Pow2Table();
  }

  lemma {:induction false} Pow2Succ(n: nat)
    ensures Pow2(n + 1) == 2 * Pow2(n)
  {
  }

  /** Four steps of Pow2, for evaluating it at the sizes of bit fields. */
  lemma {:induction false} Pow2Chain(a: nat, b: nat)
    requires b == a + 4
    ensures Pow2(a + 1) == 2 * Pow2(a) && Pow2(a + 2) == 4 * Pow2(a) && Pow2(a + 3) == 8 * Pow2(a)
    ensures Pow2(b) == 16 * Pow2(a)
  {
  }

  lemma {:induction false} MulAssoc(a: int, b: int, c: int)
    ensures a * b * c == a * (b * c)
  {
  }

  // ----- products and quotients -----

  lemma {:induction false} MulGe(x: int, d: int)
    requires x >= 1 && d > 0
    ensures x * d >= d
  {
  }

  lemma {:induction false} MulLe(x: int, d: int)
    requires x <= -1 && d > 0
    ensures x * d <= -d
  {
  }

  lemma {:induction false} MulMono(x: int, y: int, d: int)
    requires x <= y && d >= 0
    ensures x * d <= y * d
  {
    assert (y - x) * d >= 0;
  }

  lemma {:induction false} MulAdd(x: int, y: int, d: int)
    ensures (x + y) * d == x * d + y * d
  {
  }

  lemma {:induction false} ScaleLess(a: int, b: int, d: int)
    requires a < b && d > 0
    ensures a * d < b * d
  {
    MulMono(a + 1, b, d);
    MulAdd(a, 1, d);
  }

  lemma {:induction false} MulSwap(a: int, b: int, c: int)
    ensures a * b * c == a * c * b
  {
    MulAssoc(a, b, c);
    MulAssoc(a, c, b);
  }

  lemma {:induction false} MulCancel(a: int, b: int, d: int)
    requires d > 0 && a * d == b * d
    ensures a == b
  {
    if a < b {
      ScaleLess(a, b, d);
    } else if b < a {
      ScaleLess(b, a, d);
    }
  }

  lemma {:induction false} MulTwo(a: int, b: int)
    ensures a * (2 * b) == 2 * (a * b) && 2 * a * b == 2 * (a * b)
  {
  }

  lemma {:induction false} DivModDef(a: int, d: int) returns (q: int, r: int)
    requires d > 0
    ensures q == a / d && r == a % d
    ensures a == q * d + r && 0 <= r < d
  {
    q, r := a / d, a % d;
  }

  /** Quotient and remainder are determined by the division equation. */
  lemma {:induction false} DivModUnique(a: int, d: int, q: int, r: int)
    requires d > 0 && a == q * d + r && 0 <= r < d
    ensures a / d == q && a % d == r
  {
    var q', r' := DivModDef(a, d);
    var k := q' - q;
    assert k * d == r - r' by {
      assert k * d == q' * d - q * d;
    }
    if k >= 1 {
      MulGe(k, d);
    }
    if k <= -1 {
      MulLe(k, d);
    }
  }

  /** Dividing by a and then by b is dividing by a * b. */
  lemma {:induction false} DivDiv(x: nat, a: nat, b: nat)
    requires a > 0 && b > 0
    ensures a * b > 0 && x / (a * b) == x / a / b
    ensures x % (a * b) == (x / a) % b * a + x % a
  {
    var q0, r0 := DivModDef(x, a);
    var q, r := DivModDef(q0, b);
    MulGe(a, b);
    MulAdd(q * b, r, a);
    MulAssoc(q, b, a);
    MulMono(r + 1, b, a);
    MulAdd(r, 1, a);
    MulMono(0, r, a);
    DivModUnique(x, a * b, q, r * a + r0);
  }

  lemma {:induction false} DivBound(x: nat, d: nat, n: nat)
    requires d > 0 && x < n * d
    ensures x / d < n
  {
    var q, r := DivModDef(x, d);
    if q >= n {
      MulMono(n, q, d);
    }
  }

  lemma {:induction false} DivAtLeast(x: nat, d: nat, n: nat)
    requires d > 0 && n * d <= x
    ensures n <= x / d
  {
    var q, r := DivModDef(x, d);
    if q < n {
      MulMono(q + 1, n, d);
      MulAdd(q, 1, d);
    }
  }

  // ----- shifts -----

  /** `x >> k` on an unsigned value, one bit at a time. */
  function Shr(x: nat, k: nat): (r: nat)
    ensures r <= x
    decreases k
  {
    if k == 0 then x else Shr(x / 2, k - 1)
  }

  /** `x << k` before it is cut to a word. */
  function Shl(x: nat, k: nat): (r: nat)
    ensures r >= x
  {
    if k == 0 then x else 2 * Shl(x, k - 1)
  }

  /** The bits that `x >> k` drops. */
  function Low(x: nat, k: nat): (r: nat)
    ensures r <= x && r < Pow2(k)
    decreases k
  {
    if k == 0 then 0 else 2 * Low(x / 2, k - 1) + x % 2
  }

  lemma {:induction false} ShlIsMul(x: nat, k: nat)
    ensures Shl(x, k) == x * Pow2(k)
  {
    if k > 0 {
      ShlIsMul(x, k - 1);
    }
  }

  lemma {:induction false} ShrLow(x: nat, k: nat)
    ensures x == Shl(Shr(x, k), k) + Low(x, k)
    decreases k
  {
    if k > 0 {
      ShrLow(x / 2, k - 1);
    }
  }

  lemma {:induction false} ShrIsDiv(x: nat, k: nat)
    ensures Shr(x, k) == x / Pow2(k) && Low(x, k) == x % Pow2(k)
  {
    ShrLow(x, k);
    ShlIsMul(Shr(x, k), k);
    DivModUnique(x, Pow2(k), Shr(x, k), Low(x, k));
  }

  lemma {:induction false} ShrOne(x: nat)
    ensures Shr(x, 1) == x / 2
  {
    assert Shr(x / 2, 0) == x / 2;
  }

  lemma {:induction false} ShrBound(x: nat, k: nat, n: nat)
    requires x < Pow2(n + k)
    ensures Shr(x, k) < Pow2(n)
    decreases k
  {
    if k > 0 {
      ShrBound(x / 2, k - 1, n);
    }
  }

  lemma {:induction false} LowId(x: nat, k: nat)
    requires x < Pow2(k)
    ensures Low(x, k) == x
    decreases k
  {
    if k > 0 {
      LowId(x / 2, k - 1);
    }
  }

  // ----- bitwise operators -----

  function And(a: nat, b: nat): (r: nat)
    ensures r <= a && r <= b
  {
    if a == 0 || b == 0 then 0 else 2 * And(a / 2, b / 2) + (if a % 2 == 1 && b % 2 == 1 then 1 else 0)
  }

  function Or(a: nat, b: nat): (r: nat)
    ensures a <= r && b <= r && r <= a + b
  {
    if a == 0 then b else if b == 0 then a
    else 2 * Or(a / 2, b / 2) + (if a % 2 == 1 || b % 2 == 1 then 1 else 0)
  }

  /** `~w` on a 32-bit word. */
  function Not(w: word): word {
    0xFFFF_FFFF - w
  }

  /** Masking with 2^k - 1 keeps the k low bits. */
  lemma {:induction false} AndLow(x: nat, k: nat)
    ensures And(x, Pow2(k) - 1) == Low(x, k)
    decreases k
  {
    if k > 0 {
      AndLow(x / 2, k - 1);
      assert (Pow2(k) - 1) / 2 == Pow2(k - 1) - 1;
    }
  }

  lemma {:induction false} AndEven(x: nat, t: nat)
    ensures And(x, 2 * t) == 2 * And(x / 2, t)
  {
    if x == 0 || t == 0 {
    } else {
      assert (2 * t) / 2 == t && (2 * t) % 2 == 0;
    }
  }

  /** A mask shifted up by k acts on the bits from k upwards. */
  lemma {:induction false} AndShift(x: nat, m: nat, k: nat)
    ensures And(x, Shl(m, k)) == Shl(And(Shr(x, k), m), k)
    decreases k
  {
    if k > 0 {
      AndShift(x / 2, m, k - 1);
      AndEven(x, Shl(m, k - 1));
    }
  }

  /** The field of `w` bits at position k, left in place. */
  lemma {:induction false} AndField(x: nat, k: nat, w: nat)
    ensures And(x, Shl(Pow2(w) - 1, k)) == Shl(Low(Shr(x, k), w), k)
  {
    var m, y := Pow2(w) - 1, Shr(x, k);
    AndShift(x, m, k);
    AndLow(y, w);
  }

  lemma {:induction false} ShlOne(k: nat)
    ensures Shl(1, k) == Pow2(k)
  {
    if k > 0 {
      ShlOne(k - 1);
    }
  }

  lemma {:induction false} ShrShl(x: nat, k: nat)
    ensures Shr(Shl(x, k), k) == x
  {
    if k > 0 {
      ShrShl(x, k - 1);
    }
  }

  /** `w & 0x7fffffff`. */
  lemma {:induction false} ClearSign(w: word)
    ensures And(w, 0x7FFF_FFFF) == w % 0x8000_0000
  {
    hide And, Shr, Low, Pow2;
    assert Pow2(31) == 0x8000_0000 by {
      Pow2Table();
    }
    AndLow(w, 31);
    ShrIsDiv(w, 31);
  }

  /** Bit k of x, left in place. */
  lemma {:induction false} AndBit(x: nat, k: nat)
    ensures And(x, Pow2(k)) == Shl(Shr(x, k) % 2, k)
  {
    ShlOne(k);
    AndField(x, k, 1);
    var y := Shr(x, k);
    assert Low(y, 1) == y % 2;
  }

  /** Bit k of x, moved to the right. */
  lemma {:induction false} BitAt(x: nat, k: nat)
    ensures Shr(And(x, Pow2(k)), k) == x / Pow2(k) % 2
    ensures And(x, Pow2(k)) == x / Pow2(k) % 2 * Pow2(k)
  {
    AndBit(x, k);
    var b := Shr(x, k) % 2;
    ShrShl(b, k);
    ShlIsMul(b, k);
    ShrIsDiv(x, k);
  }

  lemma {:induction false} MaskAbove(k: nat, w: nat)
    ensures Pow2(w + k) - Pow2(k) == Shl(Pow2(w) - 1, k)
  {
    if k > 0 {
      MaskAbove(k - 1, w);
      assert Pow2(w + k) == 2 * Pow2(w + (k - 1));
    }
  }

  /** Clearing the k low bits of a value of w + k bits. */
  lemma {:induction false} AndAbove(x: nat, k: nat, w: nat)
    requires x < Pow2(w + k)
    ensures Pow2(k) <= Pow2(w + k)
    ensures And(x, Pow2(w + k) - Pow2(k)) == x - Low(x, k)
  {
    MaskAbove(k, w);
    AndField(x, k, w);
    ShrBound(x, k, w);
    LowId(Shr(x, k), w);
    ShrLow(x, k);
  }

  /** `x & ~(2^k - 1)` on a word. */
  lemma {:induction false} AndHigh(x: word, k: nat)
    requires k <= 32
    ensures Pow2(k) - 1 <= 0xFFFF_FFFF
    ensures And(x, Not(Pow2(k) - 1)) == x - Low(x, k)
  {
    Pow2At32();
    AndAbove(x, k, 32 - k);
  }

  /** Or of fields that do not overlap is their sum. */
  lemma {:induction false} OrDisjoint(a: nat, k: nat, b: nat)
    requires b < Pow2(k)
    ensures Or(Shl(a, k), b) == Shl(a, k) + b
    decreases k
  {
    if k > 0 {
      OrDisjoint(a, k - 1, b / 2);
    }
  }

  /** Or on the bits below k leaves the bits above alone. */
  lemma {:induction false} OrBelow(a: nat, k: nat, c: nat, d: nat)
    requires c < Pow2(k) && d < Pow2(k)
    ensures Or(Shl(a, k) + c, d) == Shl(a, k) + Or(c, d)
    decreases k
  {
    if k > 0 {
      OrBelow(a, k - 1, c / 2, d / 2);
      var x := Shl(a, k) + c;
      assert x / 2 == Shl(a, k - 1) + c / 2 && x % 2 == c % 2;
    }
  }

  lemma {:induction false} OrComm(a: nat, b: nat)
    ensures Or(a, b) == Or(b, a)
  {
    if a != 0 && b != 0 {
      OrComm(a / 2, b / 2);
    }
  }

  lemma {:induction false} OrBound(a: nat, b: nat, k: nat)
    requires a < Pow2(k) && b < Pow2(k)
    ensures Or(a, b) < Pow2(k)
  {
    if a != 0 && b != 0 {
      OrBound(a / 2, b / 2, k - 1);
    }
  }

  /** Shifting an n-bit value up by i: the bits that leave at the top, and the rest. */
  lemma {:induction false} ShiftSplit(x: nat, i: nat, n: nat)
    requires i <= n && x < Pow2(n)
    ensures Shr(x, n - i) < Pow2(i)
    ensures x * Pow2(i) == Shr(x, n - i) * Pow2(n) + Low(x, n - i) * Pow2(i)
    ensures Low(x, n - i) * Pow2(i) < Pow2(n)
  {
    hide Shr, Shl, Low, Pow2;
    var h, l, a, b := Shr(x, n - i), Low(x, n - i), Pow2(n - i), Pow2(i);
    ShrLow(x, n - i);
    ShlIsMul(h, n - i);
    Pow2Add(n - i, i);
    MulAdd(h * a, l, b);
    MulAssoc(h, a, b);
    ShrBound(x, n - i, i);
    LowBound(x, n - i);
    MulMono(l + 1, a, b);
    MulAdd(l, 1, b);
  }

  lemma {:induction false} LowBound(x: nat, k: nat)
    ensures Low(x, k) < Pow2(k)
  {
  }

  /** Bits from position m >= n upwards do not matter to the n low bits. */
  lemma {:induction false} LowAbove(a: nat, x: nat, n: nat, m: nat)
    requires n <= m
    ensures Low(a * Pow2(m) + x, n) == Low(x, n)
  {
    hide Low, Pow2, Shr;
    var F, c := Pow2(n), Pow2(m - n);
    Pow2Add(m - n, n);
    var q, r := DivModDef(x, F);
    MulAdd(a * c, q, F);
    MulAssoc(a, c, F);
    DivModUnique(a * Pow2(m) + x, F, a * c + q, r);
    ShrIsDiv(x, n);
    ShrIsDiv(a * Pow2(m) + x, n);
  }

  /** The low bits of a value with m bits appended. */
  lemma {:induction false} LowAppend(x: nat, y: nat, n: nat, m: nat)
    requires y < Pow2(m)
    ensures Low(x * Pow2(m) + y, n + m) == Low(x, n) * Pow2(m) + y
  {
    hide Low, Pow2, Shr;
    var d, F := Pow2(m), Pow2(n);
    Pow2Add(n, m);
    var q, r := DivModDef(x, F);
    MulAdd(q * F, r, d);
    MulAssoc(q, F, d);
    MulMono(r + 1, F, d);
    MulAdd(r, 1, d);
    MulMono(0, r, d);
    DivModUnique(x * d + y, F * d, q, r * d + y);
    ShrIsDiv(x, n);
    ShrIsDiv(x * d + y, n + m);
  }

  /** Replacing the n low bits. */
  lemma {:induction false} ReplaceLow(x: nat, n: nat, e: nat)
    requires e < Pow2(n)
    ensures var y := x - Low(x, n) + e; Low(y, n) == e && Shr(y, n) == Shr(x, n)
  {
    hide Low, Pow2, Shr, Shl;
    ShrLow(x, n);
    ShlIsMul(Shr(x, n), n);
    var y := x - Low(x, n) + e;
    DivModUnique(y, Pow2(n), Shr(x, n), e);
    ShrIsDiv(y, n);
  }

  /** `(2^n - 1) >> j` and `2^n >> j`. */
  lemma {:induction false} ShrMask(n: nat, j: nat)
    requires j <= n
    ensures Shr(Pow2(n) - 1, j) == Pow2(n - j) - 1 && Shr(Pow2(n), j) == Pow2(n - j)
    decreases j
  {
    if j > 0 {
      ShrMask(n - 1, j - 1);
      assert (Pow2(n) - 1) / 2 == Pow2(n - 1) - 1 && Pow2(n) / 2 == Pow2(n - 1);
    }
  }

  /** `hi |= lo >> (32 - i); lo <<= i` on the low word: nothing is lost. */
  lemma {:induction false} WordShift(x: word, i: nat)
    requires i <= 32
    ensures Shr(x, 32 - i) < Pow2(i)
    ensures x * Pow2(i) == Shr(x, 32 - i) * 0x1_0000_0000 + ToWord(Shl(x, i))
  {
    hide Shr, Shl, Low, Pow2;
    assert Pow2(32) == 0x1_0000_0000 by {
      Pow2Table();
    }
    ShiftSplit(x, i, 32);
    ShlIsMul(x, i);
    DivModUnique(Shl(x, i), 0x1_0000_0000, Shr(x, 32 - i), Low(x, 32 - i) * Pow2(i));
  }

  lemma {:induction false} SignBit(w: word)
    ensures And(w, 0x8000_0000) == if w >= 0x8000_0000 then 0x8000_0000 else 0
  {
    hide And;
    assert Pow2(31) == 0x8000_0000 by {
      Pow2Table();
    }
    BitAt(w, 31);
  }

  /** `(i0 & 0x7fffffff) | (sx << 31)`. */
  lemma {:induction false} PutSign(w: word, sx: bool)
    ensures Or(And(w, 0x7FFF_FFFF), if sx then 0x8000_0000 else 0)
      == w % 0x8000_0000 + if sx then 0x8000_0000 else 0
  {
    hide And, Or, Shr, Low, Pow2, Shl;
    var h := w % 0x8000_0000;
    assert Pow2(31) == 0x8000_0000 by {
      Pow2Table();
    }
    ClearSign(w);
    ShlOne(31);
    OrDisjoint(1, 31, h);
    OrComm(h, 0x8000_0000);
    OrComm(h, 0);
  }

  /** And and Or work separately above and below position k. */
  lemma {:induction false} AndSplit(x: nat, a: nat, c: nat, k: nat)
    requires c < Pow2(k)
    ensures And(x, Shl(a, k) + c) == Shl(And(Shr(x, k), a), k) + And(Low(x, k), c)
    decreases k
  {
    hide And;
    if k > 0 {
      AndSplit(x / 2, a, c / 2, k - 1);
      var m, l := Shl(a, k) + c, Low(x, k);
      DivModUnique(m, 2, Shl(a, k - 1) + c / 2, c % 2);
      DivModUnique(l, 2, Low(x / 2, k - 1), x % 2);
      AndStep(x, m);
      AndStep(l, c);
    }
  }

  lemma {:induction false} AndStep(a: nat, b: nat)
    ensures And(a, b) == 2 * And(a / 2, b / 2) + if a % 2 == 1 && b % 2 == 1 then 1 else 0
  {
  }

  lemma {:induction false} OrStep(a: nat, b: nat)
    ensures Or(a, b) == 2 * Or(a / 2, b / 2) + if a % 2 == 1 || b % 2 == 1 then 1 else 0
  {
  }

  lemma {:induction false} OrSplit(a: nat, c: nat, b: nat, d: nat, k: nat)
    requires c < Pow2(k) && d < Pow2(k)
    ensures Or(Shl(a, k) + c, Shl(b, k) + d) == Shl(Or(a, b), k) + Or(c, d)
    decreases k
  {
    hide Or;
    if k > 0 {
      OrSplit(a, c / 2, b, d / 2, k - 1);
      var x, y := Shl(a, k) + c, Shl(b, k) + d;
      DivModUnique(x, 2, Shl(a, k - 1) + c / 2, c % 2);
      DivModUnique(y, 2, Shl(b, k - 1) + d / 2, d % 2);
      OrStep(x, y);
      OrStep(c, d);
    }
  }
}
