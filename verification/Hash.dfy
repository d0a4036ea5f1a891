/** The running hash that speedtest1 uses to verify its results. */
module Hash {
  import opened Words

  /** Arithmetic on unsigned char. */
  function Wrap(n: int): byte {
    n % 256
  }

  /** The value of a HashContext: indices i and j and the table s. */
  datatype State = State(i: byte, j: byte, s: seq<byte>)

  /** The table is a permutation of 0..255. */
  ghost predicate Permutation(s: seq<byte>) {
    && |s| == 256
    && (forall a, b :: 0 <= a < b < 256 ==> s[a] != s[b])
  }

  function Swapped(s: seq<byte>, a: byte, b: byte): (r: seq<byte>)
    requires |s| == 256
    ensures |r| == 256
  {
    s[a := s[b]][b := s[a]]
  }

  /** One byte of input. */
  function Step(st: State, data: byte): (r: State)
    requires |st.s| == 256
    ensures |r.s| == 256
  {
    var j := Wrap(st.j + st.s[st.i] + data);
    State(Wrap(st.i + 1), j, Swapped(st.s, st.i, j))
  }

  /** All bytes of an input, in order. */
  function Absorb(st: State, data: seq<byte>): (r: State)
    requires |st.s| == 256
    ensures |r.s| == 256
  {
    if data == [] then st else Step(Absorb(st, data[..|data| - 1]), data[|data| - 1])
  }

  /** The state after HashInit. */
  function Initial(): (st: State)
    ensures |st.s| == 256 && forall k :: 0 <= k < 256 ==> st.s[k] == k
    ensures st.i == 0 && st.j == 0
  {
    State(0, 0, seq(256, k => k))
  }

  /** One output byte of HashFinal: the advanced state and the byte. */
  function Emit(st: State): (r: (State, byte))
    requires |st.s| == 256
    ensures |r.0.s| == 256
  {
    var i := Wrap(st.i + 1);
    var t: int := st.s[i];
    var j := Wrap(st.j + t);
    var s := Swapped(st.s, i, j);
    (State(i, j, s), s[Wrap(t + s[i])])
  }

  /** The state after n output bytes, and those bytes. */
  function Emitted(st: State, n: nat): (r: (State, seq<byte>))
    requires |st.s| == 256
    ensures |r.0.s| == 256 && |r.1| == n
  {
    if n == 0 then (st, [])
    else
      var (st', out) := Emitted(st, n - 1);
      var (st'', b) := Emit(st');
      (st'', out + [b])
  }

  // ----- the context object -----

  class HashContext {
    var i: byte
    var j: byte
    const s: array<byte>
    const r: array<byte>

    ghost predicate Valid()
      reads this, s
    {
      s.Length == 256 && r.Length == 32 && s != r
    }

    ghost function Value(): State
      requires Valid()
      reads this, s
    {
      State(i, j, s[..])
    }

    /** HashInit. */
    constructor ()
      ensures Valid() && Value() == Initial() && Permutation(s[..]) && fresh(s) && fresh(r)
    {
      i, j := 0, 0;
      s := new byte[256](_ => 0);
      r := new byte[32](_ => 0);
      new;
      for k := 0 to 256
        invariant i == 0 && j == 0
        invariant forall m :: 0 <= m < k ==> s[m] == m
      {
        s[k] := k;
      }
      assert s[..] == Initial().s;
    }

    /** The loop body of HashUpdate. */
    method UpdateByte(data: byte)
      requires Valid()
      modifies this, s
      ensures Valid() && Value() == Step(old(Value()), data)
      ensures i == (old(i) + 1) % 256
      ensures var x: int := old(s[i]); j == (old(j) + x + data) % 256
      ensures s[..] == old(s[..])[old(i) := old(s[..])[j]][j := old(s[i])]
    {
      j := Wrap(j + s[i] + data);
      var t := s[j];
      s[j] := s[i];
      s[i] := t;
      assert s[..] == Swapped(old(s[..]), i, j);
      i := Wrap(i + 1);
    }

    /** HashUpdate. */
    method Update(data: seq<byte>)
      requires Valid()
      modifies this, s
      ensures Valid() && Value() == Absorb(old(Value()), data)
    {
      hide Step;
      ghost var start := Value();
      for k := 0 to |data|
        invariant Valid() && Value() == Absorb(start, data[..k])
      {
        assert data[..k + 1][..k] == data[..k];
        UpdateByte(data[k]);
      }
      assert data[..|data|] == data;
    }

    /** The loop body of HashFinal, on its local indices. */
    method EmitByte(i0: byte, j0: byte) returns (i': byte, j': byte, b: byte)
      requires Valid()
      modifies s
      ensures Valid() && (State(i', j', s[..]), b) == Emit(State(i0, j0, old(s[..])))
      ensures i' == (i0 + 1) % 256 && j' == (j0 + old(s[..])[i']) % 256
      ensures s[..] == old(s[..])[i' := old(s[..])[j']][j' := old(s[..])[i']]
      ensures var x: int := s[i']; b == s[(x + s[j']) % 256]
    {
      i' := Wrap(i0 + 1);
      var t: int := s[i'];
      j' := Wrap(j0 + t);
      s[i'] := s[j'];
      s[j'] := t;
      assert s[..] == Swapped(old(s[..]), i', j');
      t := Wrap(t + s[i']);
      b := s[t];
    }

    /** HashFinal: i and j are locals here, so only the table and the result change. */
    method Final()
      requires Valid()
      modifies s, r
      ensures Valid()
      ensures s[..] == Emitted(old(Value()), 32).0.s && r[..] == Emitted(old(Value()), 32).1
      ensures forall k :: 0 <= k < 32 ==> r[k] == Emit(Emitted(old(Value()), k).0).1
    {
      hide Emit;
      ghost var start := Value();
      var i', j' := i, j;
      for k := 0 to 32
        invariant Valid()
        invariant Emitted(start, k) == (State(i', j', s[..]), r[..k])
      {
        var b;
        i', j', b := EmitByte(i', j');
        r[k] := b;
        assert r[..k + 1] == r[..k] + [b];
      }
      assert r[..32] == r[..];
      forall k | 0 <= k < 32
        ensures r[k] == Emit(Emitted(start, k).0).1
      {
        EmittedByte(start, 32, k);
      }
    }
  }

  // ----- what every run keeps -----

  lemma {:induction false} SwappedPermutation(s: seq<byte>, a: byte, b: byte)
    requires Permutation(s)
    ensures Permutation(Swapped(s, a, b))
  {
  }

  lemma {:induction false} AbsorbPermutation(st: State, data: seq<byte>)
    requires Permutation(st.s)
    ensures Permutation(Absorb(st, data).s)
  {
    if data != [] {
      AbsorbPermutation(st, data[..|data| - 1]);
      var m := Absorb(st, data[..|data| - 1]);
      SwappedPermutation(m.s, m.i, Step(m, data[|data| - 1]).j);
    }
  }

  lemma {:induction false} EmittedPermutation(st: State, n: nat)
    requires Permutation(st.s)
    ensures Permutation(Emitted(st, n).0.s)
  {
    if n > 0 {
      EmittedPermutation(st, n - 1);
      var m := Emitted(st, n - 1).0;
      var i := Wrap(m.i + 1);
      SwappedPermutation(m.s, i, Wrap(m.j + m.s[i]));
    }
  }

  /** Only the concatenated input matters, not how it was cut into HashUpdate calls. */
  lemma {:induction false} AbsorbConcat(st: State, a: seq<byte>, b: seq<byte>)
    requires |st.s| == 256
    ensures Absorb(st, a + b) == Absorb(Absorb(st, a), b)
  {
    hide Step;
    if b == [] {
      assert a + b == a;
    } else {
      var n := |b| - 1;
      AbsorbConcat(st, a, b[..n]);
      assert (a + b)[..|a + b| - 1] == a + b[..n];
      assert (a + b)[|a + b| - 1] == b[n];
    }
  }

  /** A whole run of updates. */
  function AbsorbAll(st: State, chunks: seq<seq<byte>>): (r: State)
    requires |st.s| == 256
    ensures |r.s| == 256
    decreases |chunks|
  {
    if chunks == [] then st else AbsorbAll(Absorb(st, chunks[0]), chunks[1..])
  }

  function Flatten(chunks: seq<seq<byte>>): seq<byte> {
    if chunks == [] then [] else chunks[0] + Flatten(chunks[1..])
  }

  lemma {:induction false} ChunksDoNotMatter(st: State, chunks: seq<seq<byte>>)
    requires |st.s| == 256
    ensures AbsorbAll(st, chunks) == Absorb(st, Flatten(chunks))
    decreases |chunks|
  {
    if chunks != [] {
      ChunksDoNotMatter(Absorb(st, chunks[0]), chunks[1..]);
      AbsorbConcat(st, chunks[0], Flatten(chunks[1..]));
    }
  }

  /** One step back. */
  function Unstep(st: State, data: byte): State
    requires |st.s| == 256
  {
    var i := Wrap(st.i - 1);
    var s := Swapped(st.s, i, st.j);
    State(i, Wrap(st.j - s[i] - data), s)
  }

  lemma {:induction false} StepReversible(st: State, data: byte)
    requires |st.s| == 256
    ensures Unstep(Step(st, data), data) == st
  {
    hide Step, Swapped, Wrap;
    var t := Step(st, data);
    StepShape(st, data);
    WrapBack(st.i);
    WrapSubTwo(st.j, st.s[st.i], data);
    SwappedTwice(st.s, st.i, t.j);
  }

  lemma {:induction false} StepShape(st: State, data: byte)
    requires |st.s| == 256
    ensures var t := Step(st, data);
      t.i == Wrap(st.i + 1) && t.j == Wrap(st.j + st.s[st.i] + data) && t.s == Swapped(st.s, st.i, t.j)
  {
  }

  lemma {:induction false} WrapSubTwo(j: byte, x: byte, y: byte)
    ensures Wrap(Wrap(j + x + y) - x - y) == j
  {
  }

  lemma {:induction false} WrapBack(i: byte)
    ensures Wrap(Wrap(i + 1) - 1) == i
  {
  }

  lemma {:induction false} SwappedTwice(s: seq<byte>, a: byte, b: byte)
    requires |s| == 256
    ensures Swapped(Swapped(s, a, b), a, b) == s
  {
  }

  /** Different states stay different under the same input. */
  lemma {:induction false} AbsorbInjective(st: State, st': State, data: seq<byte>)
    requires |st.s| == 256 && |st'.s| == 256 && Absorb(st, data) == Absorb(st', data)
    ensures st == st'
  {
    if data != [] {
      var n := |data| - 1;
      StepReversible(Absorb(st, data[..n]), data[n]);
      StepReversible(Absorb(st', data[..n]), data[n]);
      AbsorbInjective(st, st', data[..n]);
    }
  }

  lemma {:induction false} AbsorbOne(st: State, a: seq<byte>, x: byte)
    requires |st.s| == 256
    ensures Absorb(st, a + [x]) == Step(Absorb(st, a), x)
  {
  }

  /** Inputs of equal length that differ in one byte give different states. */
  lemma {:induction false} OneByteMatters(st: State, a: seq<byte>, x: byte, y: byte, b: seq<byte>)
    requires |st.s| == 256 && x != y
    ensures Absorb(st, a + [x] + b) != Absorb(st, a + [y] + b)
  {
    hide Absorb, Step;
    AbsorbConcat(st, a + [x], b);
    AbsorbConcat(st, a + [y], b);
    var m := Absorb(st, a);
    AbsorbOne(st, a, x);
    AbsorbOne(st, a, y);
    StepDiffers(m, x, y);
    if Absorb(st, a + [x] + b) == Absorb(st, a + [y] + b) {
      AbsorbInjective(Step(m, x), Step(m, y), b);
    }
  }

  lemma {:induction false} StepDiffers(st: State, x: byte, y: byte)
    requires |st.s| == 256 && x != y
    ensures Step(st, x) != Step(st, y)
  {
  }

  // ----- the output stage -----

  /** Byte k of the output comes from the state after k output steps, however many follow. */
  lemma {:induction false} EmittedByte(st: State, n: nat, k: nat)
    requires |st.s| == 256 && k < n
    ensures Emitted(st, n).1[k] == Emit(Emitted(st, k).0).1
    ensures Emitted(st, k + 1).0 == Emit(Emitted(st, k).0).0
  {
    hide Emit;
    if k < n - 1 {
      EmittedByte(st, n - 1, k);
    }
  }

  /** One output step back. */
  function Unemit(st: State): State
    requires |st.s| == 256
  {
    State(Wrap(st.i - 1), Wrap(st.j - st.s[st.j]), Swapped(st.s, st.i, st.j))
  }

  /** The output stage loses nothing of the state either. */
  lemma {:induction false} EmitReversible(st: State)
    requires |st.s| == 256
    ensures Unemit(Emit(st).0) == st
  {
    hide Emit, Swapped, Wrap;
    var t := Emit(st).0;
    EmitShape(st);
    WrapBack(st.i);
    WrapSub(st.j, st.s[t.i]);
    SwappedTwice(st.s, t.i, t.j);
  }

  /** Each output byte is the table entry selected by the two entries just exchanged. */
  lemma {:induction false} EmitShape(st: State)
    requires |st.s| == 256
    ensures var (t, b) := Emit(st);
      && t.i == Wrap(st.i + 1) && t.j == Wrap(st.j + st.s[t.i])
      && t.s == Swapped(st.s, t.i, t.j) && t.s[t.j] == st.s[t.i] && t.s[t.i] == st.s[t.j]
      && var x: int := t.s[t.i]; b == t.s[Wrap(x + t.s[t.j])]
  {
  }

  lemma {:induction false} WrapSub(j: byte, x: byte)
    ensures Wrap(Wrap(j + x) - x) == j
  {
  }

  /** Two hash states that end up equal after n output bytes were equal before. */
  lemma {:induction false} EmittedInjective(st: State, st': State, n: nat)
    requires |st.s| == 256 && |st'.s| == 256 && Emitted(st, n).0 == Emitted(st', n).0
    ensures st == st'
  {
    hide Emit, Unemit;
    if n > 0 {
      EmitReversible(Emitted(st, n - 1).0);
      EmitReversible(Emitted(st', n - 1).0);
      EmittedInjective(st, st', n - 1);
    }
  }
}
