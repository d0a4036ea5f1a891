/** swizzle and roundup_allones: the keys of the insert tests. */
module Swizzle {
  import opened Words

  /** Number of binary digits. */
  function BitLength(n: nat): (k: nat)
    ensures n < Pow2(k) && (n > 0 ==> k > 0 && Pow2(k - 1) <= n)
  {
    if n == 0 then 0 else BitLength(n / 2) + 1
  }

  function Bit(set1: bool, n: nat): nat {
    if set1 then Pow2(n) else 0
  }

  /** The n low bits of x in reverse order. */
  function Reversed(n: nat, x: nat): (r: nat)
    ensures r < Pow2(n)
  {
    if n == 0 then 0 else Bit(x % 2 == 1, n - 1) + Reversed(n - 1, x / 2)
  }

  /** Seen from the other end: the top bit becomes the last. */
  lemma {:induction false} ReversedTop(n: nat, x: nat, top: bool)
    requires x < Pow2(n)
    ensures Reversed(n + 1, Bit(top, n) + x) == 2 * Reversed(n, x) + Bit(top, 0)
    decreases n
  {
    if n > 0 {
      ReversedTop(n - 1, x / 2, top);
      var y := Bit(top, n) + x;
      assert y / 2 == Bit(top, n - 1) + x / 2 && y % 2 == x % 2;
    }
  }

  /** Reversing twice changes nothing. */
  lemma {:induction false} ReversedTwice(n: nat, x: nat)
    requires x < Pow2(n)
    ensures Reversed(n, Reversed(n, x)) == x
  {
    if n > 0 {
      ReversedTwice(n - 1, x / 2);
      ReversedTop(n - 1, Reversed(n - 1, x / 2), x % 2 == 1);
    }
  }

  /** Bit k of the result is bit n - 1 - k of x. */
  lemma {:induction false} ReversedBits(n: nat, x: nat, k: nat)
    requires k < n
    ensures Shr(Reversed(n, x), k) % 2 == Shr(x, n - 1 - k) % 2
    decreases n
  {
    hide Shr, Pow2;
    var r := Reversed(n - 1, x / 2);
    if k == n - 1 {
      ShrZero(x);
      ShrTop(r, x % 2 == 1, n - 1);
    } else {
      ReversedBits(n - 1, x / 2, k);
      ShrHalf(x, n - 2 - k);
      ShrBelow(r, x % 2 == 1, n - 1, k);
    }
  }

  lemma {:induction false} ShrZero(x: nat)
    ensures Shr(x, 0) == x
  {
  }

  lemma {:induction false} ShrHalf(x: nat, k: nat)
    ensures Shr(x, k + 1) == Shr(x / 2, k)
  {
  }

  lemma {:induction false} ShrTop(r: nat, top: bool, n: nat)
    requires r < Pow2(n)
    ensures Shr(Bit(top, n) + r, n) == if top then 1 else 0
  {
    if n > 0 {
      ShrTop(r / 2, top, n - 1);
      DivModUnique(Bit(top, n) + r, 2, Bit(top, n - 1) + r / 2, r % 2);
    }
  }

  lemma {:induction false} ShrBelow(r: nat, top: bool, n: nat, k: nat)
    requires k < n
    ensures Shr(Bit(top, n) + r, k) % 2 == Shr(r, k) % 2
  {
    DivModUnique(Bit(top, n) + r, 2, Bit(top, n - 1) + r / 2, r % 2);
    if k > 0 {
      ShrBelow(r / 2, top, n - 1, k - 1);
    }
  }

  /** swizzle. */
  method Swizzle(input: word, limit: word) returns (out: word)
    ensures out == Reversed(BitLength(limit), input) < Pow2(BitLength(limit))
  {
    hide Or, And, Shr, Shl, Pow2, Reversed, BitLength;
    var inp: word, lim: word := input, limit;
    out := 0;
    ghost var n, k := BitLength(limit), 0;
    assert Pow2(0) == 1 && Pow2(31) == 0x8000_0000 by {
      Pow2Table();
    }
    WordLength(limit);
    ShlZero(n);
    while lim != 0
      invariant 0 <= k && k + BitLength(lim) == n <= 32
      invariant out < Pow2(k)
      invariant Shl(out, BitLength(lim)) + Reversed(BitLength(lim), inp) == Reversed(n, input)
      decreases lim
    {
      assert Pow2(k) <= 0x8000_0000 by {
        Pow2Mono(k, 31);
      }
      AppendBit(out, inp);
      TakeBit(out, inp, BitLength(lim));
      ShrOne(inp);
      ShrOne(lim);
      LengthStep(lim);
      Pow2Succ(k);
      out := Or(Shl(out, 1), And(inp, 1));
      inp := Shr(inp, 1);
      lim := Shr(lim, 1);
      k := k + 1;
    }
    LengthStep(0);
    TakeNone(out, inp);
  }

  lemma {:induction false} LengthStep(n: nat)
    ensures if n == 0 then BitLength(n) == 0 else BitLength(n) == BitLength(n / 2) + 1
  {
  }

  lemma {:induction false} TakeNone(out: nat, inp: nat)
    ensures Shl(out, 0) + Reversed(0, inp) == out
  {
  }

  lemma {:induction false} ShlZero(n: nat)
    ensures Shl(0, n) == 0
  {
    if n > 0 {
      ShlZero(n - 1);
    }
  }

  lemma {:induction false} WordLength(n: word)
    ensures BitLength(n) <= 32
  {
    hide Pow2;
    assert Pow2(32) == 0x1_0000_0000 by {
      Pow2Table();
    }
    if BitLength(n) > 32 {
      Pow2Mono(32, BitLength(n) - 1);
    }
  }

  /** `(out << 1) | (in & 1)`. */
  lemma {:induction false} AppendBit(out: nat, inp: nat)
    ensures Or(Shl(out, 1), And(inp, 1)) == 2 * out + inp % 2
  {
  }

  /** Moving one bit from the input to the output keeps the value of the invariant. */
  lemma {:induction false} TakeBit(out: nat, inp: nat, n: nat)
    requires n > 0
    ensures Shl(2 * out + inp % 2, n - 1) + Reversed(n - 1, inp / 2) == Shl(out, n) + Reversed(n, inp)
  {
    ShlPlus(out, inp % 2 == 1, n - 1);
  }

  lemma {:induction false} ShlPlus(x: nat, b: bool, n: nat)
    ensures Shl(2 * x + Bit(b, 0), n) == Shl(x, n + 1) + Bit(b, n)
  {
    if n > 0 {
      ShlPlus(x, b, n - 1);
    }
  }

  /** swizzle(., limit) is its own inverse on all inputs below 2^bitlength(limit). */
  method SwizzleTwice(input: word, limit: word) returns (out: word)
    requires input < Pow2(BitLength(limit))
    ensures out == input
  {
    var once := Swizzle(input, limit);
    out := Swizzle(once, limit);
    ReversedTwice(BitLength(limit), input);
  }

  /** roundup_allones: the least 2^k - 1 with k >= 1 that is not below limit. */
  method RoundupAllOnes(limit: word) returns (m: word)
    ensures exists k: nat :: 1 <= k <= 32 && m == Pow2(k) - 1
    ensures limit <= m
    ensures forall k: nat :: 1 <= k && limit <= Pow2(k) - 1 ==> m <= Pow2(k) - 1
  {
    hide Pow2;
    m := 1;
    ghost var k: nat := 1;
    assert Pow2(1) == 2 && Pow2(32) == 0x1_0000_0000 by {
      Pow2Table();
    }
    while m < limit
      invariant 1 <= k <= 32 && m == Pow2(k) - 1
      invariant k == 1 || Pow2(k - 1) - 1 < limit
      decreases 32 - k
    {
      if k == 32 {
        assert false;
      }
      Pow2Succ(k);
      assert Pow2(k + 1) <= 0x1_0000_0000 by {
        Pow2Mono(k + 1, 32);
      }
      m := 2 * m + 1;
      k := k + 1;
    }
    forall j: nat | 1 <= j && limit <= Pow2(j) - 1
      ensures m <= Pow2(j) - 1
    {
      if j < k {
        Pow2Mono(j, k - 1);
      } else {
        Pow2Mono(k, j);
      }
    }
  }

  /** 2^k - 1 has k bits. */
  lemma {:induction false} AllOnesLength(k: nat)
    ensures BitLength(Pow2(k) - 1) == k
  {
    if k > 0 {
      AllOnesLength(k - 1);
      assert (Pow2(k) - 1) / 2 == Pow2(k - 1) - 1;
    }
  }

  lemma {:induction false} ReversedInjective(n: nat, x: nat, y: nat)
    requires x < Pow2(n) && y < Pow2(n) && Reversed(n, x) == Reversed(n, y)
    ensures x == y
  {
    ReversedTwice(n, x);
    ReversedTwice(n, y);
  }

  /** The key loop of speedtest1_launch120, with maxb from line 2493: the values bound to the UNIQUE
      column are the swizzled numbers from 1 on; no two are equal, and all lie between 1 and maxb. */
  method InsertKeys(sz: int32) returns (keys: seq<word>, maxb: word)
    ensures |keys| == (if sz > 0 then sz else 0) && sz <= maxb
    ensures exists k: nat :: 1 <= k <= 32 && maxb == Pow2(k) - 1
    ensures sz >= 0 ==> forall k: nat :: 1 <= k && sz <= Pow2(k) - 1 ==> maxb <= Pow2(k) - 1
    ensures forall j :: 0 <= j < |keys| ==> keys[j] == Reversed(BitLength(maxb), j + 1)
    ensures forall i, j :: 0 <= i < j < |keys| ==> keys[i] != keys[j]
    ensures forall i :: 0 <= i < |keys| ==> 1 <= keys[i] <= maxb
  {
    hide Pow2, Reversed, BitLength;
    maxb := RoundupAllOnes(ToWord(sz));
    ghost var n: nat :| 1 <= n <= 32 && maxb == Pow2(n) - 1;
    AllOnesLength(n);
    assert BitLength(maxb) == n;
    keys := [];
    var i: int := 1;
    while i <= sz
      invariant |keys| == i - 1 && (i == 1 || i <= sz + 1)
      invariant forall j :: 0 <= j < |keys| ==> keys[j] == Reversed(n, j + 1) <= maxb
    {
      var x1 := Swizzle(i, maxb);
      assert x1 == Reversed(n, |keys| + 1) <= maxb;
      keys := keys + [x1];
      i := i + 1;
    }
    KeysDistinct(n, keys);
  }

  lemma {:induction false} KeysDistinct(n: nat, keys: seq<word>)
    requires |keys| < Pow2(n)
    requires forall j :: 0 <= j < |keys| ==> keys[j] == Reversed(n, j + 1)
    ensures forall i, j :: 0 <= i < j < |keys| ==> keys[i] != keys[j]
    ensures forall i :: 0 <= i < |keys| ==> keys[i] != 0
  {
    hide Pow2, Reversed;
    forall i, j | 0 <= i < j < |keys|
      ensures keys[i] != keys[j]
    {
      if keys[i] == keys[j] {
        ReversedInjective(n, i + 1, j + 1);
      }
    }
    forall i | 0 <= i < |keys|
      ensures keys[i] != 0
    {
      ReversedZero(n);
      if keys[i] == 0 {
        ReversedInjective(n, i + 1, 0);
      }
    }
  }

  lemma {:induction false} ReversedZero(n: nat)
    ensures Reversed(n, 0) == 0
  {
    if n > 0 {
      ReversedZero(n - 1);
    }
  }
}
