/** Unsigned LEB128 as append_aot_to_wasm.py writes and reads it. */
module Leb128 {
  import opened Words

  /** Groups of seven bits, least significant first; every group but the last has its top bit set.
      Zero has no groups at all. */
  function Encode(n: nat): seq<byte> {
    if n == 0 then [] else if n < 128 then [n] else [128 + n % 128] + Encode(n / 128)
  }

  /** Number of bytes and value of the number at the start of bs.  A number that is cut off by the end
      of bs is taken as it is. */
  function Decode(bs: seq<byte>): (nat, nat)
    requires bs != []
  {
    if bs[0] < 128 || |bs| == 1 then (1, bs[0] % 128)
    else
      var (l, v) := Decode(bs[1..]);
      (l + 1, bs[0] % 128 + 128 * v)
  }

  lemma {:induction false} SevenBits(n: nat)
    ensures And(n, 0x7F) == n % 128 && Shr(n, 7) == n / 128
    ensures Or(0x80, n % 128) == 128 + n % 128
  {
    hide And, Or, Shr, Shl, Low, Pow2;
    assert Pow2(7) == 128 by {
      Pow2Table();
    }
    AndLow(n, 7);
    ShrIsDiv(n, 7);
    ShlOne(7);
    OrDisjoint(1, 7, n % 128);
  }

  /** leb128_encode_uint. */
  method EncodeUint(n: nat) returns (binary: seq<byte>)
    ensures binary == Encode(n)
  {
    hide And, Or, Shr;
    binary := [];
    var value := n;
    while value != 0
      invariant binary + Encode(value) == Encode(n)
      decreases value
    {
      SevenBits(value);
      ghost var was := value;
      var lower := And(value, 0x7F);
      value := Shr(value, 7);
      var current: byte;
      if value != 0 {
        current := Or(0x80, lower);
      } else {
        current := lower;
      }
      assert Encode(was) == [current] + Encode(value);
      assert binary + Encode(was) == binary + [current] + Encode(value);
      binary := binary + [current];
    }
    assert binary + [] == binary;
  }

  /** What the loop of leb128_decode_uint has gathered when it stops. */
  lemma {:induction false} DecodeOne(bs: seq<byte>, i: nat)
    requires i < |bs|
    ensures bs[i] < 128 || i == |bs| - 1 ==> Decode(bs[i..]) == (1, bs[i] % 128)
    ensures bs[i] >= 128 && i < |bs| - 1 ==>
      Decode(bs[i..]) == (Decode(bs[i + 1..]).0 + 1, bs[i] % 128 + 128 * Decode(bs[i + 1..]).1)
  {
    if i < |bs| - 1 {
      assert bs[i..][1..] == bs[i + 1..];
    }
  }

  /** Shifting a group into place above the groups already read. */
  lemma {:induction false} OrGroup(result: nat, low: nat, shift: nat)
    requires result < Pow2(shift) && low < 128
    ensures Or(result, Shl(low, shift)) == result + Shl(low, shift) < Pow2(shift + 7)
  {
    hide Or, Shl, Pow2;
    assert Pow2(7) == 128 by {
      Pow2Table();
    }
    OrDisjoint(low, shift, result);
    OrComm(result, Shl(low, shift));
    ShlIsMul(low, shift);
    Pow2Add(shift, 7);
    MulMono(low, 127, Pow2(shift));
  }

  lemma {:induction false} TopBit(b: byte)
    ensures And(b, 0x80) == 0 <==> b < 128
  {
    hide And, Pow2;
    assert Pow2(7) == 128 by {
      Pow2Table();
    }
    BitAt(b, 7);
  }

  /** leb128_decode_uint.  On empty input the loop variable is never bound and Python raises. */
  method DecodeUint(binary: seq<byte>) returns (r: Option<(nat, nat)>)
    ensures r == if binary == [] then None else Some(Decode(binary))
  {
    hide And, Or, Shl, Pow2, Decode;
    if binary == [] {
      return None;
    }
    var result: nat, shift: nat, i: nat := 0, 0, 0;
    ghost var total := Decode(binary);
    assert binary[0..] == binary;
    assert Pow2(0) == 1 && Shl(total.1, 0) == total.1 by {
      Pow2Table();
      ShlIsMul(total.1, 0);
    }
    while true
      invariant i < |binary| && result < Pow2(shift)
      invariant total.0 == i + Decode(binary[i..]).0
      invariant total.1 == result + Shl(Decode(binary[i..]).1, shift)
      decreases |binary| - i
    {
      var b := binary[i];
      SevenBits(b);
      TopBit(b);
      DecodeOne(binary, i);
      var lower := And(b, 0x7F);
      OrGroup(result, lower, shift);
      result := Or(result, Shl(lower, shift));
      if And(b, 0x80) == 0 || i == |binary| - 1 {
        break;
      }
      ShlGroup(lower, Decode(binary[i + 1..]).1, shift);
      shift := shift + 7;
      i := i + 1;
    }
    r := Some((i + 1, result));
  }

  lemma {:induction false} ShlGroup(low: nat, v: nat, shift: nat)
    ensures Shl(low + 128 * v, shift) == Shl(low, shift) + Shl(v, shift + 7)
  {
    if shift > 0 {
      ShlGroup(low, v, shift - 1);
    } else {
      ShlSeven(v);
    }
  }

  lemma {:induction false} ShlSeven(v: nat)
    ensures Shl(v, 7) == 128 * v
  {
    hide Shl, Pow2;
    assert Pow2(7) == 128 by {
      Pow2Table();
    }
    ShlIsMul(v, 7);
  }

  // ----- the bytes -----

  /** The k-th group of seven bits of n. */
  function GroupAt(n: nat, k: nat): nat {
    n / Pow2(7 * k) % 128
  }

  /** Byte k of an encoding is the k-th group of seven bits, with the top bit set in all bytes but the
      last. */
  lemma {:induction false} EncodeByte(n: nat, k: nat)
    requires k < |Encode(n)|
    ensures Encode(n)[k] == GroupAt(n, k) + (if k < |Encode(n)| - 1 then 128 else 0)
    ensures k == |Encode(n)| - 1 ==> 0 < n / Pow2(7 * k) < 128
    decreases k
  {
    hide Pow2;
    assert Pow2(0) == 1 && Pow2(7) == 128 by {
      Pow2Table();
    }
    if k > 0 {
      EncodeByte(n / 128, k - 1);
      Pow2Add(7, 7 * (k - 1));
      DivDiv(n, 128, Pow2(7 * (k - 1)));
    } else if n >= 128 {
      EncodeSome(n / 128);
    }
  }

  lemma {:induction false} EncodeSome(n: nat)
    requires n > 0
    ensures |Encode(n)| >= 1
  {
  }

  /** A number ends at the first byte below 128, or where the bytes end. */
  lemma {:induction false} DecodeEnd(bs: seq<byte>)
    requires bs != []
    ensures var l := Decode(bs).0;
      && 1 <= l <= |bs| && (bs[l - 1] < 128 || l == |bs|) && forall j :: 0 <= j < l - 1 ==> bs[j] >= 128
  {
    if bs[0] >= 128 && |bs| > 1 {
      DecodeEnd(bs[1..]);
      var l := Decode(bs).0;
      assert bs[1..][l - 2] == bs[l - 1];
      forall j | 0 <= j < l - 1
        ensures bs[j] >= 128
      {
        if j > 0 {
          assert bs[1..][j - 1] == bs[j];
        }
      }
    }
  }

  /** Group k of its value is the low seven bits of byte k, and there are no others. */
  lemma {:induction false} DecodeByte(bs: seq<byte>, k: nat)
    requires bs != []
    ensures k < Decode(bs).0 ==> k < |bs| && GroupAt(Decode(bs).1, k) == bs[k] % 128
    ensures Decode(bs).1 < Pow2(7 * Decode(bs).0)
    decreases |bs|
  {
    hide Pow2, GroupAt;
    var low := bs[0] % 128;
    if bs[0] < 128 || |bs| == 1 {
      assert Decode(bs) == (1, low);
      OneGroup(low);
    } else {
      var rest, i := bs[1..], if k > 0 then k - 1 else 0;
      var l, w := Decode(rest).0, Decode(rest).1;
      assert Decode(bs) == (l + 1, low + 128 * w);
      hide Decode;
      DecodeByte(rest, i);
      NextGroup(w, low, i, l);
    }
  }

  lemma {:induction false} OneGroup(low: nat)
    requires low < 128
    ensures GroupAt(low, 0) == low && low < Pow2(7)
  {
    assert Pow2(0) == 1 && Pow2(7) == 128 by {
      Pow2Table();
    }
  }

  /** One more group below moves the others up by one. */
  lemma {:induction false} NextGroup(w: nat, low: nat, k: nat, l: nat)
    requires low < 128 && w < Pow2(7 * l)
    ensures var v := low + 128 * w;
      GroupAt(v, 0) == low && GroupAt(v, k + 1) == GroupAt(w, k) && v < Pow2(7 * (l + 1))
  {
    hide Pow2;
    assert Pow2(0) == 1 && Pow2(7) == 128 by {
      Pow2Table();
    }
    var v := low + 128 * w;
    DivModUnique(v, 128, w, low);
    Pow2Add(7, 7 * k);
    DivDiv(v, 128, Pow2(7 * k));
    Pow2Add(7, 7 * l);
  }

  // ----- round trip -----

  /** Decoding finds an encoded number again, whatever follows it. */
  lemma {:induction false} DecodeEncode(n: nat, rest: seq<byte>)
    requires n >= 1
    ensures Encode(n) + rest != [] && Decode(Encode(n) + rest) == (|Encode(n)|, n)
  {
    if n >= 128 {
      DecodeEncode(n / 128, rest);
      var bs := Encode(n) + rest;
      assert bs[1..] == Encode(n / 128) + rest;
    }
  }

  /** That n is not zero is needed: the encoding of zero is empty, so what is decoded is whatever follows
      it, never of length zero; with nothing behind it decoding fails. */
  lemma {:induction false} DecodeEncodeIff(n: nat, rest: seq<byte>)
    ensures Encode(n) + rest == [] <==> n == 0 && rest == []
    ensures Encode(n) + rest != [] ==> (Decode(Encode(n) + rest) == (|Encode(n)|, n) <==> n >= 1)
  {
    if n >= 1 {
      DecodeEncode(n, rest);
    } else {
      assert Encode(n) + rest == rest;
      if rest != [] {
        DecodePositive(rest);
      }
    }
  }

  lemma {:induction false} DecodePositive(bs: seq<byte>)
    requires bs != []
    ensures Decode(bs).0 >= 1
  {
  }

  // ----- length -----

  function Length(n: nat): nat {
    |Encode(n)|
  }

  /** n has k groups exactly when it lies between 128^(k-1) and 128^k. */
  lemma {:induction false} LengthBounds(n: nat)
    requires n > 0
    ensures Length(n) >= 1 && Pow2(7 * (Length(n) - 1)) <= n < Pow2(7 * Length(n))
  {
    hide Pow2;
    assert Pow2(7) == 128 && Pow2(0) == 1 by {
      Pow2Table();
    }
    if n >= 128 {
      LengthBounds(n / 128);
      var k := Length(n / 128);
      Pow2Add(7 * (k - 1), 7);
      Pow2Add(7 * k, 7);
    }
  }

  lemma {:induction false} LengthAt(n: nat, k: nat)
    requires k >= 1 && Pow2(7 * (k - 1)) <= n < Pow2(7 * k)
    ensures Length(n) == k
  {
    hide Pow2, Length;
    LengthBounds(n);
    var l := Length(n);
    if l < k {
      Pow2Mono(7 * l, 7 * (k - 1));
    } else if k < l {
      Pow2Mono(7 * k, 7 * (l - 1));
    }
  }

  lemma {:induction false} LengthMono(m: nat, n: nat)
    requires m <= n
    ensures Length(m) <= Length(n)
  {
    hide Pow2, Encode;
    LengthZero();
    if m > 0 {
      LengthBounds(m);
      LengthBounds(n);
      if Length(m) > Length(n) {
        Pow2Mono(7 * Length(n), 7 * (Length(m) - 1));
      }
    }
  }

  lemma {:induction false} LengthZero()
    ensures Length(0) == 0
  {
  }
}
