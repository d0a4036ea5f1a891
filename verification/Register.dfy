/** The shift register of speedtest1_random: its step is multiplication by the polynomial x modulo
    x^32 + x^31 + x^3 + x + 1 over the two-element field, and every nonzero state has the longest
    possible period. */
module Register {
  import opened Words

  // ----- the step -----

  /** `(x >> 1) ^ ((1 + ~(x & 1)) & 0xd0000001)`. */
  function NextX(x: bv32): bv32 {
    (x >> 1) ^ ((1 + !(x & 1)) & 0xD000_0001)
  }

  /** x after n draws. */
  function DrawX(x: bv32, n: nat): bv32 {
    if n == 0 then x else NextX(DrawX(x, n - 1))
  }

  /** One step back: the top bit tells whether the tap mask was applied. */
  function PrevX(x: bv32): bv32 {
    if x >= 0x8000_0000 then ((x ^ 0xD000_0001) << 1) | 1 else x << 1
  }

  /** The shift register step is a bijection on words. */
  lemma {:induction false} RegisterBijection(x: bv32)
    ensures PrevX(NextX(x)) == x && NextX(PrevX(x)) == x
  {
    hide NextX, PrevX;
    BackEven(x);
    BackOdd(x);
    ForthLow(x);
    ForthHigh(x);
  }

  lemma {:induction false} BackEven(x: bv32)
    ensures x & 1 == 0 ==> PrevX(NextX(x)) == x
  {
  }

  lemma {:induction false} BackOdd(x: bv32)
    ensures x & 1 != 0 ==> PrevX(NextX(x)) == x
  {
  }

  lemma {:induction false} ForthLow(x: bv32)
    ensures x < 0x8000_0000 ==> NextX(PrevX(x)) == x
  {
  }

  lemma {:induction false} ForthHigh(x: bv32)
    ensures x >= 0x8000_0000 ==> NextX(PrevX(x)) == x
  {
  }

  /** It never reaches zero from anything else, in particular not from the seed. */
  lemma {:induction false} RegisterNonzero(x: bv32)
    ensures NextX(x) == 0 <==> x == 0
  {
  }

  /** From a nonzero state the register never dies. */
  lemma {:induction false} RegisterAlive(x: bv32, n: nat)
    requires x != 0
    ensures DrawX(x, n) != 0
  {
    hide NextX;
    if n > 0 {
      RegisterAlive(x, n - 1);
      RegisterNonzero(DrawX(x, n - 1));
    }
  }

  // ----- runs -----

  lemma {:induction false} DrawAdd(v: bv32, m: nat, n: nat)
    ensures DrawX(v, m + n) == DrawX(DrawX(v, m), n)
  {
    hide NextX;
    if n > 0 {
      DrawAdd(v, m, n - 1);
      assert DrawX(v, m + n) == NextX(DrawX(v, m + (n - 1)));
    }
  }

  /** A run can be cancelled: the step is injective. */
  lemma {:induction false} DrawInjective(v: bv32, w: bv32, n: nat)
    requires DrawX(v, n) == DrawX(w, n)
    ensures v == w
  {
    hide NextX, PrevX;
    if n > 0 {
      RegisterBijection(DrawX(v, n - 1));
      RegisterBijection(DrawX(w, n - 1));
      DrawInjective(v, w, n - 1);
    }
  }

  /** A state that comes back comes back again and again. */
  lemma {:induction false} DrawRepeats(v: bv32, n: nat, k: nat)
    requires DrawX(v, n) == v
    ensures DrawX(v, k * n) == v
  {
    if k > 0 {
      DrawRepeats(v, n, k - 1);
      assert k * n == (k - 1) * n + n;
      DrawAdd(v, (k - 1) * n, n);
    } else {
      assert 0 * n == 0;
    }
  }

  // ----- polynomials in the step -----

  /** The polynomial 1; the coefficient of x^i is bit 31 - i. */
  const ONE: bv32 := 0x8000_0000

  function Add(v: bv32, w: bv32): bv32 {
    v ^ w
  }

  function Sum(a: bv32, b: bv32, c: bv32, d: bv32): bv32 {
    Add(Add(a, b), Add(c, d))
  }

  /** The leading coefficient of c times v. */
  function Term(c: bv32, v: bv32): bv32 {
    if c >= 0x8000_0000 then v else 0
  }

  function Next4(v: bv32): bv32 {
    NextX(NextX(NextX(NextX(v))))
  }

  function Act4(c: bv32, v: bv32): bv32 {
    Sum(Term(c, v), Term(c << 1, NextX(v)), Term(c << 2, NextX(NextX(v))), Term(c << 3, NextX(NextX(NextX(v)))))
  }

  function Act16(c: bv32, v: bv32): bv32 {
    Sum(Act4(c, v), Act4(c << 4, Next4(v)), Act4(c << 8, Next4(Next4(v))), Act4(c << 12, Next4(Next4(Next4(v)))))
  }

  /** The polynomial c in NextX applied to v: the product of c and v. */
  function Act(c: bv32, v: bv32): bv32 {
    Add(Act16(c, v), Act16(c << 16, Next4(Next4(Next4(Next4(v))))))
  }

  lemma {:induction false} AddAssoc(a: bv32, b: bv32, c: bv32)
    ensures Add(Add(a, b), c) == Add(a, Add(b, c))
  {
  }

  lemma {:induction false} AddSwap(a: bv32, b: bv32, c: bv32, d: bv32)
    ensures Add(Add(a, b), Add(c, d)) == Add(Add(a, c), Add(b, d))
  {
    hide Add;
    AddComm(b, c);
    AddAssoc(a, b, Add(c, d));
    AddAssoc(b, c, d);
    AddAssoc(c, b, d);
    AddAssoc(a, c, Add(b, d));
  }

  lemma {:induction false} AddComm(a: bv32, b: bv32)
    ensures Add(a, b) == Add(b, a)
  {
  }

  lemma {:induction false} AddIs(a: bv32, b: bv32)
    ensures Add(a, b) == a ^ b
  {
  }

  lemma {:induction false} SumAdd(a: bv32, b: bv32, c: bv32, d: bv32, a': bv32, b': bv32, c': bv32, d': bv32)
    ensures Sum(Add(a, a'), Add(b, b'), Add(c, c'), Add(d, d')) == Add(Sum(a, b, c, d), Sum(a', b', c', d'))
  {
    hide Add;
    AddSwap(a, a', b, b');
    AddSwap(c, c', d, d');
    AddSwap(Add(a, b), Add(a', b'), Add(c, d), Add(c', d'));
  }

  lemma {:induction false} NextAdd(v: bv32, w: bv32)
    ensures NextX(Add(v, w)) == Add(NextX(v), NextX(w))
  {
    hide NextX;
    NextXor(v, w);
  }

  lemma {:induction false} NextXor(v: bv32, w: bv32)
    ensures NextX(v ^ w) == NextX(v) ^ NextX(w)
  {
  }

  lemma {:induction false} Next4Add(v: bv32, w: bv32)
    ensures Next4(Add(v, w)) == Add(Next4(v), Next4(w))
  {
    hide NextX, Add;
    NextAdd(v, w);
    NextAdd(NextX(v), NextX(w));
    NextAdd(NextX(NextX(v)), NextX(NextX(w)));
    NextAdd(NextX(NextX(NextX(v))), NextX(NextX(NextX(w))));
  }

  lemma {:induction false} TermAdd(c: bv32, v: bv32, w: bv32)
    ensures Term(c, Add(v, w)) == Add(Term(c, v), Term(c, w))
  {
  }

  lemma {:induction false} Act4Add(c: bv32, v: bv32, w: bv32)
    ensures Act4(c, Add(v, w)) == Add(Act4(c, v), Act4(c, w))
  {
    hide NextX, Add, Term, Sum;
    var v1, w1 := NextX(v), NextX(w);
    var v2, w2 := NextX(v1), NextX(w1);
    var v3, w3 := NextX(v2), NextX(w2);
    NextAdd(v, w);
    NextAdd(v1, w1);
    NextAdd(v2, w2);
    TermAdd(c, v, w);
    TermAdd(c << 1, v1, w1);
    TermAdd(c << 2, v2, w2);
    TermAdd(c << 3, v3, w3);
    SumAdd(Term(c, v), Term(c << 1, v1), Term(c << 2, v2), Term(c << 3, v3),
           Term(c, w), Term(c << 1, w1), Term(c << 2, w2), Term(c << 3, w3));
  }

  lemma {:induction false} Act16Add(c: bv32, v: bv32, w: bv32)
    ensures Act16(c, Add(v, w)) == Add(Act16(c, v), Act16(c, w))
  {
    hide Next4, Add, Act4, Sum;
    var v1, w1 := Next4(v), Next4(w);
    var v2, w2 := Next4(v1), Next4(w1);
    var v3, w3 := Next4(v2), Next4(w2);
    Next4Add(v, w);
    Next4Add(v1, w1);
    Next4Add(v2, w2);
    Act4Add(c, v, w);
    Act4Add(c << 4, v1, w1);
    Act4Add(c << 8, v2, w2);
    Act4Add(c << 12, v3, w3);
    SumAdd(Act4(c, v), Act4(c << 4, v1), Act4(c << 8, v2), Act4(c << 12, v3),
           Act4(c, w), Act4(c << 4, w1), Act4(c << 8, w2), Act4(c << 12, w3));
  }

  /** Multiplication distributes over addition. */
  lemma {:induction false} ActAdd(c: bv32, v: bv32, w: bv32)
    ensures Act(c, Add(v, w)) == Add(Act(c, v), Act(c, w))
  {
    hide Next4, Add, Act16;
    var v1, w1 := Next4(v), Next4(w);
    var v2, w2 := Next4(v1), Next4(w1);
    var v3, w3 := Next4(v2), Next4(w2);
    var v4, w4 := Next4(v3), Next4(w3);
    Next4Add(v, w);
    Next4Add(v1, w1);
    Next4Add(v2, w2);
    Next4Add(v3, w3);
    Act16Add(c, v, w);
    Act16Add(c << 16, v4, w4);
    AddSwap(Act16(c, v), Act16(c, w), Act16(c << 16, v4), Act16(c << 16, w4));
  }

  lemma {:induction false} NextSum(a: bv32, b: bv32, c: bv32, d: bv32)
    ensures NextX(Sum(a, b, c, d)) == Sum(NextX(a), NextX(b), NextX(c), NextX(d))
  {
    hide NextX, Add;
    NextAdd(a, b);
    NextAdd(c, d);
    NextAdd(Add(a, b), Add(c, d));
  }

  lemma {:induction false} TermNext(c: bv32, v: bv32)
    ensures Term(c, NextX(v)) == NextX(Term(c, v))
  {
  }

  lemma {:induction false} Act4Next(c: bv32, v: bv32)
    ensures Act4(c, NextX(v)) == NextX(Act4(c, v))
  {
    hide NextX, Term, Sum;
    var v1 := NextX(v);
    var v2 := NextX(v1);
    var v3 := NextX(v2);
    TermNext(c, v);
    TermNext(c << 1, v1);
    TermNext(c << 2, v2);
    TermNext(c << 3, v3);
    NextSum(Term(c, v), Term(c << 1, v1), Term(c << 2, v2), Term(c << 3, v3));
  }

  lemma {:induction false} Next4Next(v: bv32)
    ensures Next4(NextX(v)) == NextX(Next4(v))
  {
    hide NextX;
  }

  lemma {:induction false} Act16Next(c: bv32, v: bv32)
    ensures Act16(c, NextX(v)) == NextX(Act16(c, v))
  {
    hide NextX, Next4, Act4, Sum;
    var v1 := Next4(v);
    var v2 := Next4(v1);
    var v3 := Next4(v2);
    Next4Next(v);
    Next4Next(v1);
    Next4Next(v2);
    Act4Next(c, v);
    Act4Next(c << 4, v1);
    Act4Next(c << 8, v2);
    Act4Next(c << 12, v3);
    NextSum(Act4(c, v), Act4(c << 4, v1), Act4(c << 8, v2), Act4(c << 12, v3));
  }

  lemma {:induction false} ActNext(c: bv32, v: bv32)
    ensures Act(c, NextX(v)) == NextX(Act(c, v))
  {
    hide NextX, Next4, Act16, Add;
    var v1 := Next4(v);
    var v2 := Next4(v1);
    var v3 := Next4(v2);
    var v4 := Next4(v3);
    Next4Next(v);
    Next4Next(v1);
    Next4Next(v2);
    Next4Next(v3);
    Act16Next(c, v);
    Act16Next(c << 16, v4);
    NextAdd(Act16(c, v), Act16(c << 16, v4));
  }

  lemma {:induction false} AddZero(v: bv32)
    ensures Add(v, v) == 0 && Add(v, 0) == v
  {
  }

  lemma {:induction false} ActZero(c: bv32)
    ensures Act(c, 0) == 0
  {
    hide Act, Add;
    AddZero(0);
    ActAdd(c, 0, 0);
    AddZero(Act(c, 0));
  }

  lemma {:induction false} ActTerm(c: bv32, d: bv32, v: bv32)
    ensures Act(c, Term(d, v)) == Term(d, Act(c, v))
  {
    hide Act;
    ActZero(c);
  }

  lemma {:induction false} ActSum(f: bv32, a: bv32, b: bv32, c: bv32, d: bv32)
    ensures Act(f, Sum(a, b, c, d)) == Sum(Act(f, a), Act(f, b), Act(f, c), Act(f, d))
  {
    hide Act, Add;
    ActAdd(f, a, b);
    ActAdd(f, c, d);
    ActAdd(f, Add(a, b), Add(c, d));
  }

  lemma {:induction false} ActNext4(c: bv32, v: bv32)
    ensures Act(c, Next4(v)) == Next4(Act(c, v))
  {
    hide NextX, Act;
    var v1 := NextX(v);
    var v2 := NextX(v1);
    ActNext(c, v);
    ActNext(c, v1);
    ActNext(c, v2);
    ActNext(c, NextX(v2));
  }

  lemma {:induction false} ActAct4(c: bv32, d: bv32, v: bv32)
    ensures Act(c, Act4(d, v)) == Act4(d, Act(c, v))
  {
    hide NextX, Term, Act, Sum;
    var v1 := NextX(v);
    var v2 := NextX(v1);
    var v3 := NextX(v2);
    ActNext(c, v);
    ActNext(c, v1);
    ActNext(c, v2);
    ActTerm(c, d, v);
    ActTerm(c, d << 1, v1);
    ActTerm(c, d << 2, v2);
    ActTerm(c, d << 3, v3);
    ActSum(c, Term(d, v), Term(d << 1, v1), Term(d << 2, v2), Term(d << 3, v3));
  }

  lemma {:induction false} ActAct16(c: bv32, d: bv32, v: bv32)
    ensures Act(c, Act16(d, v)) == Act16(d, Act(c, v))
  {
    hide Next4, Act, Act4, Sum;
    var v1 := Next4(v);
    var v2 := Next4(v1);
    var v3 := Next4(v2);
    ActNext4(c, v);
    ActNext4(c, v1);
    ActNext4(c, v2);
    ActAct4(c, d, v);
    ActAct4(c, d << 4, v1);
    ActAct4(c, d << 8, v2);
    ActAct4(c, d << 12, v3);
    ActSum(c, Act4(d, v), Act4(d << 4, v1), Act4(d << 8, v2), Act4(d << 12, v3));
  }

  /** Polynomials in the step commute. */
  lemma {:induction false} ActCommutes(c: bv32, d: bv32, v: bv32)
    ensures Act(c, Act(d, v)) == Act(d, Act(c, v))
  {
    hide Next4, Act, Act16, Add;
    var v1 := Next4(v);
    var v2 := Next4(v1);
    var v3 := Next4(v2);
    var v4 := Next4(v3);
    ActNext4(c, v);
    ActNext4(c, v1);
    ActNext4(c, v2);
    ActNext4(c, v3);
    ActAct16(c, d, v);
    ActAct16(c, d << 16, v4);
    ActAdd(c, Act16(d, v), Act16(d << 16, v4));
    ActIs(d, v);
    ActIs(d, Act(c, v));
  }

  lemma {:induction false} ActIs(c: bv32, v: bv32)
    ensures Act(c, v) == Add(Act16(c, v), Act16(c << 16, Next4(Next4(Next4(Next4(v))))))
  {
  }

  /** The coefficients of c under a mask. */
  function Keep(c: bv32, mask: bv32): bv32 {
    c & mask
  }

  lemma {:induction false} KeepJoin(c: bv32, m: bv32, n: bv32)
    ensures Add(Keep(c, m), Keep(c, n)) == Keep(c, Add(m, n))
  {
    hide Keep, Add;
    KeepXor(c, m, n);
    AddIs(m, n);
  }

  lemma {:induction false} KeepXor(c: bv32, m: bv32, n: bv32)
    ensures Add(Keep(c, m), Keep(c, n)) == Keep(c, m ^ n)
  {
    XorMasks(c, m, n);
  }

  lemma {:induction false} XorMasks(c: bv32, m: bv32, n: bv32)
    ensures (c & m) ^ (c & n) == c & (m ^ n)
  {
  }

  /** Below x^32 multiplying by a power of x is shifting. */
  lemma {:induction false} Nibble0(c: bv32)
    ensures Act4(c, 0x8000_0000) == Keep(c, 0xF000_0000)
  {
  }

  lemma {:induction false} Nibble1(c: bv32)
    ensures Act4(c << 4, 0x0800_0000) == Keep(c, 0x0F00_0000)
  {
  }

  lemma {:induction false} Nibble2(c: bv32)
    ensures Act4(c << 8, 0x0080_0000) == Keep(c, 0x00F0_0000)
  {
  }

  lemma {:induction false} Nibble3(c: bv32)
    ensures Act4(c << 12, 0x0008_0000) == Keep(c, 0x000F_0000)
  {
  }

  lemma {:induction false} Nibble4(c: bv32)
    ensures Act4(c << 16, 0x0000_8000) == Keep(c, 0x0000_F000)
  {
  }

  lemma {:induction false} Nibble5(c: bv32)
    ensures Act4(c << 20, 0x0000_0800) == Keep(c, 0x0000_0F00)
  {
  }

  lemma {:induction false} Nibble6(c: bv32)
    ensures Act4(c << 24, 0x0000_0080) == Keep(c, 0x0000_00F0)
  {
  }

  lemma {:induction false} Nibble7(c: bv32)
    ensures Act4(c << 28, 0x0000_0008) == Keep(c, 0x0000_000F)
  {
  }

  lemma {:induction false} Next4Shifts()
    ensures Next4(0x8000_0000) == 0x0800_0000 && Next4(0x0800_0000) == 0x0080_0000
    ensures Next4(0x0080_0000) == 0x0008_0000 && Next4(0x0008_0000) == 0x0000_8000
    ensures Next4(0x0000_8000) == 0x0000_0800 && Next4(0x0000_0800) == 0x0000_0080
    ensures Next4(0x0000_0080) == 0x0000_0008
  {
  }

  lemma {:induction false} ShiftShift(c: bv32)
    ensures (c << 16) << 4 == c << 20 && (c << 16) << 8 == c << 24 && (c << 16) << 12 == c << 28
  {
  }

  lemma {:induction false} KeepFour(c: bv32, k: bv32, l: bv32, m: bv32, n: bv32)
    ensures Sum(Keep(c, k), Keep(c, l), Keep(c, m), Keep(c, n)) == Keep(c, Sum(k, l, m, n))
  {
    hide Keep, Add;
    KeepJoin(c, k, l);
    KeepJoin(c, m, n);
    KeepJoin(c, Add(k, l), Add(m, n));
  }

  lemma {:induction false} JoinMasks()
    ensures Sum(0xF000_0000, 0x0F00_0000, 0x00F0_0000, 0x000F_0000) == 0xFFFF_0000
    ensures Sum(0x0000_F000, 0x0000_0F00, 0x0000_00F0, 0x0000_000F) == 0x0000_FFFF
    ensures Add(0xFFFF_0000, 0x0000_FFFF) == 0xFFFF_FFFF
  {
  }

  lemma {:induction false} Act16Shifts(c: bv32)
    ensures Act16(c, 0x8000_0000) == Keep(c, 0xFFFF_0000) && Act16(c << 16, 0x0000_8000) == Keep(c, 0x0000_FFFF)
  {
    hide Act4, Next4, Sum, Keep;
    Next4Shifts();
    ShiftShift(c);
    Nibble0(c);
    Nibble1(c);
    Nibble2(c);
    Nibble3(c);
    Nibble4(c);
    Nibble5(c);
    Nibble6(c);
    Nibble7(c);
    JoinMasks();
    KeepFour(c, 0xF000_0000, 0x0F00_0000, 0x00F0_0000, 0x000F_0000);
    KeepFour(c, 0x0000_F000, 0x0000_0F00, 0x0000_00F0, 0x0000_000F);
  }

  /** Every state is a polynomial in the step applied to ONE. */
  lemma {:induction false} ActOne(c: bv32)
    ensures Act(c, ONE) == c
  {
    hide Act16, Next4, Add, Keep;
    Next4Shifts();
    Act16Shifts(c);
    JoinMasks();
    KeepJoin(c, 0xFFFF_0000, 0x0000_FFFF);
    KeepAll(c);
  }

  lemma {:induction false} KeepAll(c: bv32)
    ensures Keep(c, 0xFFFF_FFFF) == c
  {
  }

  lemma {:induction false} ActDraw(c: bv32, v: bv32, n: nat)
    ensures Act(c, DrawX(v, n)) == DrawX(Act(c, v), n)
  {
    hide NextX, Act;
    if n > 0 {
      ActDraw(c, v, n - 1);
      ActNext(c, DrawX(v, n - 1));
    }
  }

  /** n draws multiply by the n-th power of x. */
  lemma {:induction false} DrawIsAct(v: bv32, n: nat)
    ensures DrawX(v, n) == Act(v, DrawX(ONE, n))
  {
    hide NextX, Act, DrawX;
    ActOne(v);
    ActDraw(v, ONE, n);
  }

  // ----- powers of x -----

  /** a is the n-th power of x. */
  predicate Power(n: nat, a: bv32) {
    DrawX(ONE, n) == a
  }

  lemma {:induction false} Times(m: nat, n: nat, a: bv32, b: bv32)
    requires Power(m, a) && Power(n, b)
    ensures Power(m + n, Act(a, b))
  {
    hide Act, DrawX;
    DrawAdd(ONE, m, n);
    DrawIsAct(a, n);
  }

  lemma {:induction false} Twice(n: nat, a: bv32, c: bv32)
    requires Power(n, a) && Act(a, a) == c
    ensures Power(2 * n, c)
  {
    Times(n, n, a, a);
  }

  lemma {:induction false} Square0()
    ensures Power(1, 0x4000_0000)
  {
    assert DrawX(ONE, 0) == ONE;
  }

  lemma {:induction false} Square1()
    ensures Power(0x2, 0x2000_0000)
  {
    hide DrawX, Power;
    Square0();
    Twice(0x1, 0x4000_0000, 0x2000_0000);
  }

  lemma {:induction false} Square2()
    ensures Power(0x4, 0x0800_0000)
  {
    hide DrawX, Power;
    Square1();
    Twice(0x2, 0x2000_0000, 0x0800_0000);
  }

  lemma {:induction false} Square3()
    ensures Power(0x8, 0x0080_0000)
  {
    hide DrawX, Power;
    Square2();
    Twice(0x4, 0x0800_0000, 0x0080_0000);
  }

  lemma {:induction false} Square4()
    ensures Power(0x10, 0x0000_8000)
  {
    hide DrawX, Power;
    Square3();
    Twice(0x8, 0x0080_0000, 0x0000_8000);
  }

  lemma {:induction false} Square5()
    ensures Power(0x20, 0xD000_0001)
  {
    hide DrawX, Power;
    Square4();
    Twice(0x10, 0x0000_8000, 0xD000_0001);
  }

  lemma {:induction false} Square6()
    ensures Power(0x40, 0x55FF_FFFF)
  {
    hide DrawX, Power;
    Square5();
    Twice(0x20, 0xD000_0001, 0x55FF_FFFF);
  }

  lemma {:induction false} Square7()
    ensures Power(0x80, 0x13BB_3333)
  {
    hide DrawX, Power;
    Square6();
    Twice(0x40, 0x55FF_FFFF, 0x13BB_3333);
  }

  lemma {:induction false} Square8()
    ensures Power(0x100, 0x6FCF_4F4F)
  {
    hide DrawX, Power;
    Square7();
    Twice(0x80, 0x13BB_3333, 0x6FCF_4F4F);
  }

  lemma {:induction false} Square9()
    ensures Power(0x200, 0x530C_8CF3)
  {
    hide DrawX, Power;
    Square8();
    Twice(0x100, 0x6FCF_4F4F, 0x530C_8CF3);
  }

  lemma {:induction false} Square10()
    ensures Power(0x400, 0x9A56_5964)
  {
    hide DrawX, Power;
    Square9();
    Twice(0x200, 0x530C_8CF3, 0x9A56_5964);
  }

  lemma {:induction false} Square11()
    ensures Power(0x800, 0x0FF9_0AC5)
  {
    hide DrawX, Power;
    Square10();
    Twice(0x400, 0x9A56_5964, 0x0FF9_0AC5);
  }

  lemma {:induction false} Square12()
    ensures Power(0x1000, 0x68E1_F690)
  {
    hide DrawX, Power;
    Square11();
    Twice(0x800, 0x0FF9_0AC5, 0x68E1_F690);
  }

  lemma {:induction false} Square13()
    ensures Power(0x2000, 0x7157_E6C2)
  {
    hide DrawX, Power;
    Square12();
    Twice(0x1000, 0x68E1_F690, 0x7157_E6C2);
  }

  lemma {:induction false} Square14()
    ensures Power(0x4000, 0x72EA_81D1)
  {
    hide DrawX, Power;
    Square13();
    Twice(0x2000, 0x7157_E6C2, 0x72EA_81D1);
  }

  lemma {:induction false} Square15()
    ensures Power(0x8000, 0x0DF6_35B6)
  {
    hide DrawX, Power;
    Square14();
    Twice(0x4000, 0x72EA_81D1, 0x0DF6_35B6);
  }

  lemma {:induction false} Square16()
    ensures Power(0x1_0000, 0x9A8F_DFFE)
  {
    hide DrawX, Power;
    Square15();
    Twice(0x8000, 0x0DF6_35B6, 0x9A8F_DFFE);
  }

  lemma {:induction false} Square17()
    ensures Power(0x2_0000, 0xDFEE_E6CD)
  {
    hide DrawX, Power;
    Square16();
    Twice(0x1_0000, 0x9A8F_DFFE, 0xDFEE_E6CD);
  }

  lemma {:induction false} Square18()
    ensures Power(0x4_0000, 0x9242_0B0A)
  {
    hide DrawX, Power;
    Square17();
    Twice(0x2_0000, 0xDFEE_E6CD, 0x9242_0B0A);
  }

  lemma {:induction false} Square19()
    ensures Power(0x8_0000, 0x1DBD_E042)
  {
    hide DrawX, Power;
    Square18();
    Twice(0x4_0000, 0x9242_0B0A, 0x1DBD_E042);
  }

  lemma {:induction false} Square20()
    ensures Power(0x10_0000, 0xC5A2_9958)
  {
    hide DrawX, Power;
    Square19();
    Twice(0x8_0000, 0x1DBD_E042, 0xC5A2_9958);
  }

  lemma {:induction false} Square21()
    ensures Power(0x20_0000, 0x7153_A579)
  {
    hide DrawX, Power;
    Square20();
    Twice(0x10_0000, 0xC5A2_9958, 0x7153_A579);
  }

  lemma {:induction false} Square22()
    ensures Power(0x40_0000, 0x96EF_0B85)
  {
    hide DrawX, Power;
    Square21();
    Twice(0x20_0000, 0x7153_A579, 0x96EF_0B85);
  }

  lemma {:induction false} Square23()
    ensures Power(0x80_0000, 0xEA62_D8B8)
  {
    hide DrawX, Power;
    Square22();
    Twice(0x40_0000, 0x96EF_0B85, 0xEA62_D8B8);
  }

  lemma {:induction false} Square24()
    ensures Power(0x100_0000, 0xF5F8_6278)
  {
    hide DrawX, Power;
    Square23();
    Twice(0x80_0000, 0xEA62_D8B8, 0xF5F8_6278);
  }

  lemma {:induction false} Square25()
    ensures Power(0x200_0000, 0x22D9_BCF1)
  {
    hide DrawX, Power;
    Square24();
    Twice(0x100_0000, 0xF5F8_6278, 0x22D9_BCF1);
  }

  lemma {:induction false} Square26()
    ensures Power(0x400_0000, 0x2A6B_04BC)
  {
    hide DrawX, Power;
    Square25();
    Twice(0x200_0000, 0x22D9_BCF1, 0x2A6B_04BC);
  }

  lemma {:induction false} Square27()
    ensures Power(0x800_0000, 0x089B_9D16)
  {
    hide DrawX, Power;
    Square26();
    Twice(0x400_0000, 0x2A6B_04BC, 0x089B_9D16);
  }

  lemma {:induction false} Square28()
    ensures Power(0x1000_0000, 0x4E1D_BC5D)
  {
    hide DrawX, Power;
    Square27();
    Twice(0x800_0000, 0x089B_9D16, 0x4E1D_BC5D);
  }

  lemma {:induction false} Square29()
    ensures Power(0x2000_0000, 0x02CB_EFC0)
  {
    hide DrawX, Power;
    Square28();
    Twice(0x1000_0000, 0x4E1D_BC5D, 0x02CB_EFC0);
  }

  lemma {:induction false} Square30()
    ensures Power(0x4000_0000, 0xC751_3C8B)
  {
    hide DrawX, Power;
    Square29();
    Twice(0x2000_0000, 0x02CB_EFC0, 0xC751_3C8B);
  }

  lemma {:induction false} Square31()
    ensures Power(0x8000_0000, 0xCDB6_6DB7)
  {
    hide DrawX, Power;
    Square30();
    Twice(0x4000_0000, 0xC751_3C8B, 0xCDB6_6DB7);
  }

  lemma {:induction false} Square32()
    ensures Power(0x10000_0000, 0x4000_0000)
  {
    hide DrawX, Power;
    Square31();
    Twice(0x8000_0000, 0xCDB6_6DB7, 0x4000_0000);
  }

  /** Divided by a power of x: from x^(m+n) and x^n to x^m. */
  lemma {:induction false} Quotient(m: nat, n: nat, a: bv32, b: bv32)
    requires Power(n, b) && Power(m + n, Act(a, b))
    ensures Power(m, a)
  {
    hide Act, DrawX;
    DrawAdd(ONE, m, n);
    DrawIsAct(a, n);
    DrawInjective(DrawX(ONE, m), a, n);
  }

  /** The number of nonzero states. */
  const N: nat := 0xFFFF_FFFF

  lemma {:induction false} Product(m: nat, n: nat, a: bv32, b: bv32, c: bv32)
    requires Power(m, a) && Power(n, b) && Act(a, b) == c
    ensures Power(m + n, c)
  {
    Times(m, n, a, b);
  }

  /** x^(2^32 - 1) = 1. */
  lemma {:induction false} PowerN()
    ensures Power(N, ONE)
  {
    hide DrawX, Act, Power;
    Square0();
    Square32();
    ActOne(0x4000_0000);
    ActCommutes(ONE, 0x4000_0000, ONE);
    ActOne(ONE);
    Quotient(N, 1, ONE, 0x4000_0000);
  }

  // ----- the powers (2^32 - 1) / q -----

  lemma {:induction false} Power101()
    ensures Power(0x101, 0xE7E7_A7A6)
  {
    hide DrawX, Power;
    Square0();
    Square8();
    Product(0x1, 0x100, 0x4000_0000, 0x6FCF_4F4F, 0xE7E7_A7A6);
  }

  lemma {:induction false} Power1010000()
    ensures Power(0x101_0000, 0x33A7_FF22)
  {
    hide DrawX, Power;
    Square16();
    Square24();
    Product(0x1_0000, 0x100_0000, 0x9A8F_DFFE, 0xF5F8_6278, 0x33A7_FF22);
  }

  lemma {:induction false} Power1010101()
    ensures Power(0x101_0101, 0xAC4C_CC78)
  {
    hide DrawX, Power;
    Power101();
    Power1010000();
    Product(0x101, 0x101_0000, 0xE7E7_A7A6, 0x33A7_FF22, 0xAC4C_CC78);
  }

  lemma {:induction false} Power1010()
    ensures Power(0x1010, 0x7106_68E1)
  {
    hide DrawX, Power;
    Square4();
    Square12();
    Product(0x10, 0x1000, 0x0000_8000, 0x68E1_F690, 0x7106_68E1);
  }

  lemma {:induction false} Power10100000()
    ensures Power(0x1010_0000, 0xAF9E_EC76)
  {
    hide DrawX, Power;
    Square20();
    Square28();
    Product(0x10_0000, 0x1000_0000, 0xC5A2_9958, 0x4E1D_BC5D, 0xAF9E_EC76);
  }

  lemma {:induction false} Power10101010()
    ensures Power(0x1010_1010, 0x70B8_B6CD)
  {
    hide DrawX, Power;
    Power1010();
    Power10100000();
    Product(0x1010, 0x1010_0000, 0x7106_68E1, 0xAF9E_EC76, 0x70B8_B6CD);
  }

  lemma {:induction false} Power11111111()
    ensures Power(0x1111_1111, 0x23E6_A15C)
  {
    hide DrawX, Power;
    Power1010101();
    Power10101010();
    Product(0x101_0101, 0x1010_1010, 0xAC4C_CC78, 0x70B8_B6CD, 0x23E6_A15C);
  }

  lemma {:induction false} Power22222222()
    ensures Power(0x2222_2222, 0xDCF4_7AB5)
  {
    hide DrawX, Power;
    Power11111111();
    Product(0x1111_1111, 0x1111_1111, 0x23E6_A15C, 0x23E6_A15C, 0xDCF4_7AB5);
  }

  /** N / 5. */
  lemma {:induction false} Power33333333()
    ensures Power(0x3333_3333, 0x5CD4_1FF2)
  {
    hide DrawX, Power;
    Power11111111();
    Power22222222();
    Product(0x1111_1111, 0x2222_2222, 0x23E6_A15C, 0xDCF4_7AB5, 0x5CD4_1FF2);
  }

  /** N / 3. */
  lemma {:induction false} Power55555555()
    ensures Power(0x5555_5555, 0xFF32_BEAE)
  {
    hide DrawX, Power;
    Power22222222();
    Power33333333();
    Product(0x2222_2222, 0x3333_3333, 0xDCF4_7AB5, 0x5CD4_1FF2, 0xFF32_BEAE);
  }

  lemma {:induction false} Power2020202()
    ensures Power(0x202_0202, 0xD4FC_36D0)
  {
    hide DrawX, Power;
    Power1010101();
    Product(0x101_0101, 0x101_0101, 0xAC4C_CC78, 0xAC4C_CC78, 0xD4FC_36D0);
  }

  lemma {:induction false} Power3030303()
    ensures Power(0x303_0303, 0xB000_4404)
  {
    hide DrawX, Power;
    Power1010101();
    Power2020202();
    Product(0x101_0101, 0x202_0202, 0xAC4C_CC78, 0xD4FC_36D0, 0xB000_4404);
  }

  lemma {:induction false} Power6060606()
    ensures Power(0x606_0606, 0x0613_FFED)
  {
    hide DrawX, Power;
    Power3030303();
    Product(0x303_0303, 0x303_0303, 0xB000_4404, 0xB000_4404, 0x0613_FFED);
  }

  lemma {:induction false} PowerC0C0C0C()
    ensures Power(0xC0C_0C0C, 0x31B1_9AA8)
  {
    hide DrawX, Power;
    Power6060606();
    Product(0x606_0606, 0x606_0606, 0x0613_FFED, 0x0613_FFED, 0x31B1_9AA8);
  }

  /** N / 17. */
  lemma {:induction false} PowerF0F0F0F()
    ensures Power(0xF0F_0F0F, 0x556D_8D3B)
  {
    hide DrawX, Power;
    Power3030303();
    PowerC0C0C0C();
    Product(0x303_0303, 0xC0C_0C0C, 0xB000_4404, 0x31B1_9AA8, 0x556D_8D3B);
  }

  lemma {:induction false} Power10001()
    ensures Power(0x1_0001, 0x4D47_EFFF)
  {
    hide DrawX, Power;
    Square0();
    Square16();
    Product(0x1, 0x1_0000, 0x4000_0000, 0x9A8F_DFFE, 0x4D47_EFFF);
  }

  lemma {:induction false} Power1000100()
    ensures Power(0x100_0100, 0xCCF6_3153)
  {
    hide DrawX, Power;
    Square8();
    Square24();
    Product(0x100, 0x100_0000, 0x6FCF_4F4F, 0xF5F8_6278, 0xCCF6_3153);
  }

  /** N / 257. */
  lemma {:induction false} PowerFF00FF()
    ensures Power(0xFF_00FF, 0xA44C_EC8C)
  {
    hide DrawX, Power;
    Power10001();
    Power1000100();
    Quotient(0xFF_00FF, 0x1_0001, 0xA44C_EC8C, 0x4D47_EFFF);
  }

  /** N / 65537. */
  lemma {:induction false} PowerFFFF()
    ensures Power(0xFFFF, 0x951F_BFFF)
  {
    hide DrawX, Power;
    Square0();
    Square16();
    Quotient(0xFFFF, 1, 0x951F_BFFF, 0x4000_0000);
  }

  // ----- no shorter period -----

  /** A power of x other than 1 moves every nonzero state when its difference from 1 has an inverse. */
  lemma {:induction false} PowerMoves(n: nat, p: bv32, c: bv32, inverse: bv32, v: bv32)
    requires Power(n, p) && c == Add(p, ONE) && Act(inverse, c) == ONE && v != 0
    ensures DrawX(v, n) != v
  {
    hide DrawX, Act, Add;
    DrawIsAct(v, n);
    if Act(v, p) == v {
      ActAdd(v, p, ONE);
      ActOne(v);
      AddZero(v);
      ActCommutes(v, inverse, c);
      ActZero(inverse);
    }
  }

  predicate Factor(q: nat) {
    q == 3 || q == 5 || q == 17 || q == 257 || q == 65537
  }

  lemma {:induction false} Moves3(v: bv32)
    requires v != 0
    ensures DrawX(v, 0x5555_5555) != v
  {
    hide DrawX, Power;
    Power55555555();
    PowerMoves(0x5555_5555, 0xFF32_BEAE, 0x7F32_BEAE, 0xFF32_BEAE, v);
  }

  lemma {:induction false} Moves5(v: bv32)
    requires v != 0
    ensures DrawX(v, 0x3333_3333) != v
  {
    hide DrawX, Power;
    Power33333333();
    PowerMoves(0x3333_3333, 0x5CD4_1FF2, 0xDCD4_1FF2, 0x0020_6547, v);
  }

  lemma {:induction false} Moves17(v: bv32)
    requires v != 0
    ensures DrawX(v, 0xF0F_0F0F) != v
  {
    hide DrawX, Power;
    PowerF0F0F0F();
    PowerMoves(0xF0F_0F0F, 0x556D_8D3B, 0xD56D_8D3B, 0x7EA3_0545, v);
  }

  lemma {:induction false} Moves257(v: bv32)
    requires v != 0
    ensures DrawX(v, 0xFF_00FF) != v
  {
    hide DrawX, Power;
    PowerFF00FF();
    PowerMoves(0xFF_00FF, 0xA44C_EC8C, 0x244C_EC8C, 0xA750_4F19, v);
  }

  lemma {:induction false} Moves65537(v: bv32)
    requires v != 0
    ensures DrawX(v, 0xFFFF) != v
  {
    hide DrawX, Power;
    PowerFFFF();
    PowerMoves(0xFFFF, 0x951F_BFFF, 0x151F_BFFF, 0x3872_05A6, v);
  }

  lemma {:induction false} FactorMoves(q: nat, v: bv32)
    requires Factor(q) && v != 0
    ensures N % q == 0 && DrawX(v, N / q) != v
  {
    hide DrawX;
    Moves3(v);
    Moves5(v);
    Moves17(v);
    Moves257(v);
    Moves65537(v);
  }

  /** 2^32 - 1 draws bring every state back. */
  lemma {:induction false} ReturnsAfterN(v: bv32)
    ensures DrawX(v, N) == v
  {
    hide DrawX, Act;
    PowerN();
    DrawIsAct(v, N);
    ActOne(v);
  }

  /** Euclid's algorithm on the periods of v that are multiples of d. */
  lemma {:induction false} CommonPeriod(v: bv32, d: nat, a: nat, b: nat) returns (g: nat)
    requires b > 0 && DrawX(v, d * a) == v && DrawX(v, d * b) == v
    ensures g > 0 && a % g == 0 && b % g == 0 && DrawX(v, d * g) == v
    decreases b
  {
    hide DrawX;
    var q, r := DivModDef(a, b);
    PeriodRemainder(v, d, a, b, q, r);
    if r == 0 {
      g := b;
    } else {
      g := CommonPeriod(v, d, b, r);
      MultipleSum(b, r, q, g);
    }
  }

  lemma {:induction false} PeriodRemainder(v: bv32, d: nat, a: nat, b: nat, q: nat, r: nat)
    requires a == q * b + r && DrawX(v, d * a) == v && DrawX(v, d * b) == v
    ensures DrawX(v, d * r) == v
  {
    hide DrawX;
    assert d * a == q * (d * b) + d * r by {
      MulAdd2(d, q * b, r);
      MulSwap(d, q, b);
    }
    DrawRepeats(v, d * b, q);
    DrawAdd(v, q * (d * b), d * r);
  }

  lemma {:induction false} MulAdd2(g: int, x: int, y: int)
    ensures g * (x + y) == g * x + g * y
  {
  }

  /** A divisor of b and r divides q * b + r. */
  lemma {:induction false} MultipleSum(b: nat, r: nat, q: nat, g: nat)
    requires g > 0 && b % g == 0 && r % g == 0
    ensures (q * b + r) % g == 0
  {
    var x, y := b / g, r / g;
    assert q * b + r == (q * x + y) * g by {
      MulAssoc(q, x, g);
      MulAdd(q * x, y, g);
    }
    DivModUnique(q * b + r, g, q * x + y, 0);
  }

  /** No number from 2 to d divides q. */
  predicate NoDivisor(q: nat, d: nat) {
    d < 2 || (q % d != 0 && NoDivisor(q, d - 1))
  }

  lemma {:induction false} NoDivisorAt(q: nat, d: nat, g: nat)
    requires NoDivisor(q, d) && 2 <= g <= d
    ensures q % g != 0
  {
    if g < d {
      NoDivisorAt(q, d - 1, g);
    }
  }

  lemma {:induction false} EightMore(q: nat, d: nat)
    requires NoDivisor(q, d)
    requires q % (d + 1) != 0 && q % (d + 2) != 0 && q % (d + 3) != 0 && q % (d + 4) != 0
    requires q % (d + 5) != 0 && q % (d + 6) != 0 && q % (d + 7) != 0 && q % (d + 8) != 0
    ensures NoDivisor(q, d + 8)
  {
    assert NoDivisor(q, d + 1);
    assert NoDivisor(q, d + 2);
    assert NoDivisor(q, d + 3);
    assert NoDivisor(q, d + 4);
    assert NoDivisor(q, d + 5);
    assert NoDivisor(q, d + 6);
    assert NoDivisor(q, d + 7);
    assert NoDivisor(q, d + 8);
  }

  lemma {:induction false} NoDivisorTo64()
    ensures NoDivisor(65537, 64)
  {
    assert NoDivisor(65537, 8);
    hide NoDivisor;
    EightMore(65537, 8);
    EightMore(65537, 16);
    EightMore(65537, 24);
    EightMore(65537, 32);
    EightMore(65537, 40);
    EightMore(65537, 48);
    EightMore(65537, 56);
  }

  lemma {:induction false} NoDivisorTo128()
    ensures NoDivisor(65537, 128)
  {
    NoDivisorTo64();
    hide NoDivisor;
    EightMore(65537, 64);
    EightMore(65537, 72);
    EightMore(65537, 80);
    EightMore(65537, 88);
    EightMore(65537, 96);
    EightMore(65537, 104);
    EightMore(65537, 112);
    EightMore(65537, 120);
  }

  lemma {:induction false} NoDivisorTo192()
    ensures NoDivisor(65537, 192)
  {
    NoDivisorTo128();
    hide NoDivisor;
    EightMore(65537, 128);
    EightMore(65537, 136);
    EightMore(65537, 144);
    EightMore(65537, 152);
    EightMore(65537, 160);
    EightMore(65537, 168);
    EightMore(65537, 176);
    EightMore(65537, 184);
  }

  lemma {:induction false} NoDivisorTo256()
    ensures NoDivisor(65537, 256)
  {
    NoDivisorTo192();
    hide NoDivisor;
    EightMore(65537, 192);
    EightMore(65537, 200);
    EightMore(65537, 208);
    EightMore(65537, 216);
    EightMore(65537, 224);
    EightMore(65537, 232);
    EightMore(65537, 240);
    EightMore(65537, 248);
  }

  /** The five factors have no divisor up to their roots. */
  lemma {:induction false} FactorRoot(q: nat) returns (s: nat)
    requires Factor(q)
    ensures NoDivisor(q, s) && q < (s + 1) * (s + 1)
  {
    if q == 3 {
      s := 1;
    } else if q == 5 {
      s := 2;
    } else if q == 17 {
      s := 4;
      assert NoDivisor(17, 4);
    } else if q == 257 {
      s := 16;
      assert NoDivisor(257, 16);
    } else {
      s := 256;
      NoDivisorTo256();
    }
  }

  /** So they are prime. */
  lemma {:induction false} FactorPrime(q: nat, g: nat)
    requires Factor(q) && g > 0 && q % g == 0
    ensures g == 1 || g == q
  {
    hide NoDivisor;
    var s := FactorRoot(q);
    var h, r := DivModDef(q, g);
    DivModUnique(q, h, g, 0);
    if 2 <= g <= s {
      NoDivisorAt(q, s, g);
    } else if 2 <= h <= s {
      NoDivisorAt(q, s, h);
    } else if g > s && h > s {
      MulMono(s + 1, h, s + 1);
      MulMono(s + 1, g, h);
    }
  }

  /** Every factor of 2^32 - 1 divides every period: otherwise (2^32 - 1) / q would be one. */
  lemma {:induction false} FactorDivides(v: bv32, n: nat, q: nat)
    requires Factor(q) && v != 0 && DrawX(v, n) == v
    ensures n % q == 0
  {
    hide DrawX;
    FactorMoves(q, v);
    var d := N / q;
    assert d * q == N;
    ReturnsAfterN(v);
    DrawRepeats(v, n, d);
    var g := CommonPeriod(v, d, n, q);
    FactorPrime(q, g);
  }

  /** An odd m and m + 2 have no common factor. */
  lemma {:induction false} DividesProduct(n: nat, m: nat)
    requires m % 2 == 1 && n % m == 0 && n % (m + 2) == 0
    ensures n % (m * (m + 2)) == 0
  {
    var a, ra := DivModDef(n, m);
    var c, rc := DivModDef(n, m + 2);
    TwiceQuotient(a, c, m);
    OddTimes(a - c, m + 2);
    var j := (a - c) / 2;
    MulAssoc(2, j, m + 2);
    QuotientProduct(j, m, a, n);
    DivModUnique(n, m * (m + 2), j, 0);
  }

  lemma {:induction false} TwiceQuotient(a: int, c: int, m: int)
    requires a * m == c * (m + 2)
    ensures 2 * a == (a - c) * (m + 2)
  {
    MulAdd2(a, m, 2);
    MulAdd(a - c, c, m + 2);
  }

  lemma {:induction false} QuotientProduct(j: int, m: int, a: int, n: int)
    requires a == j * (m + 2) && n == a * m
    ensures n == j * (m * (m + 2))
  {
    MulSwap(j, m + 2, m);
    MulAssoc(j, m, m + 2);
  }

  lemma {:induction false} OddTimes(k: int, m: int)
    requires m % 2 == 1 && (k * m) % 2 == 0
    ensures k % 2 == 0
  {
    var h, j := k / 2, m / 2;
    if k % 2 == 1 {
      assert k * m == k * (2 * j) + k by {
        MulAdd2(k, 2 * j, 1);
      }
      assert k * (2 * j) == 2 * (k * j) by {
        MulTwo(k, j);
      }
      DivModUnique(k * m, 2, k * j + h, 1);
    }
  }

  /** The register has the longest possible period: a nonzero state comes back after n draws exactly
      when 2^32 - 1 divides n, so it runs through all nonzero words. */
  lemma {:induction false} RegisterPeriod(v: bv32, n: nat)
    requires v != 0
    ensures DrawX(v, n) == v <==> n % N == 0
  {
    hide DrawX;
    if DrawX(v, n) == v {
      FactorDivides(v, n, 3);
      FactorDivides(v, n, 5);
      DividesProduct(n, 3);
      FactorDivides(v, n, 17);
      DividesProduct(n, 15);
      FactorDivides(v, n, 257);
      DividesProduct(n, 255);
      FactorDivides(v, n, 65537);
      DividesProduct(n, 65535);
    } else if n % N == 0 {
      ReturnsAfterN(v);
      assert n == n / N * N;
      DrawRepeats(v, N, n / N);
    }
  }
}
