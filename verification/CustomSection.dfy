/** Appending an aligned custom section to a wasm file. */
module CustomSection {
  import opened Words
  import opened Leb128

  // ----- the pieces -----

  /** Length prefix of a vector; zero is written out. */
  function Prefix(n: nat): (p: seq<byte>)
    ensures p != []
  {
    LengthZeroOnly(n);
    if n == 0 then [0] else Encode(n)
  }

  lemma {:induction false} LengthZeroOnly(n: nat)
    ensures Encode(n) == [] <==> n == 0
  {
  }

  /** present_as_vector. */
  function Vector(content: seq<byte>): seq<byte> {
    Prefix(|content|) + content
  }

  function Zeros(n: nat): (z: seq<byte>)
    ensures |z| == n
  {
    seq(n, _ => 0)
  }

  /** Bytes of the padding vector with n bytes of padding. */
  function PaddedSize(n: nat): nat {
    |Prefix(n)| + n
  }

  /** Where the content would start with n bytes of padding. */
  function ContentPos(start: nat, name: nat, content: nat, n: nat): nat {
    start + 1 + Length(name + PaddedSize(n) + content) + name + PaddedSize(n)
  }

  /** is_aligned. */
  predicate IsAligned(pos: nat, alignment: nat)
    requires alignment >= 1
  {
    And(pos, alignment - 1) == 0
  }

  // ----- calc_padding -----

  /** The first padding in the searched range whose content position is aligned, if there is one. */
  method CalcPadding(alignment: nat, name: nat, content: nat, start: nat) returns (r: Option<nat>)
    ensures r.Some? ==> r.value < 2 * alignment && IsAligned(ContentPos(start, name, content, r.value), alignment)
    ensures r.Some? ==> forall p :: 0 <= p < r.value ==> !IsAligned(ContentPos(start, name, content, p), alignment)
    ensures r == None ==> forall p: nat :: p < 2 * alignment ==> !IsAligned(ContentPos(start, name, content, p), alignment)
  {
    hide IsAligned;
    for padding := 0 to alignment * 2
      invariant forall p :: 0 <= p < padding ==> !IsAligned(ContentPos(start, name, content, p), alignment)
    {
      var paddingBin := Vector(Zeros(padding));
      var sectionLength := name + |paddingBin| + content;
      var sectionLengthBin := EncodeUint(sectionLength);
      var pos := start + 1 + |sectionLengthBin| + name + |paddingBin|;
      if IsAligned(pos, alignment) {
        return Some(padding);
      }
    }
    return None;
  }

  lemma {:induction false} AlignedIs(pos: nat, k: nat)
    ensures IsAligned(pos, Pow2(k)) <==> pos % Pow2(k) == 0
  {
    hide And, Low, Pow2;
    AndLow(pos, k);
    ShrIsDiv(pos, k);
  }

  // ----- alignments up to 128: the search succeeds -----

  ghost predicate PowerOfTwo(n: nat) {
    exists k: nat :: n == Pow2(k)
  }

  /** A mask with a gap lets some smaller position through. */
  lemma {:induction false} GapInMask(m: nat) returns (pos: nat)
    requires !PowerOfTwo(m + 1)
    ensures 0 < pos <= m && And(pos, m) == 0
    decreases m
  {
    assert m != 0 by {
      assert Pow2(0) == 1;
    }
    if m % 2 == 0 {
      pos := 1;
    } else {
      if k: nat :| m / 2 + 1 == Pow2(k) {
        assert m + 1 == Pow2(k + 1);
      }
      var half := GapInMask(m / 2);
      pos := 2 * half;
    }
  }

  /** is_aligned is divisibility if and only if the alignment is a power of two. */
  lemma {:induction false} AlignedIff(alignment: nat)
    requires alignment >= 1
    ensures (forall pos: nat :: IsAligned(pos, alignment) <==> pos % alignment == 0) <==> PowerOfTwo(alignment)
  {
    hide And, Pow2;
    if PowerOfTwo(alignment) {
      var k: nat :| alignment == Pow2(k);
      forall pos: nat
        ensures IsAligned(pos, alignment) <==> pos % alignment == 0
      {
        AlignedIs(pos, k);
      }
    } else {
      var pos := GapInMask(alignment - 1);
      DivModUnique(pos, alignment, 0, pos);
      assert IsAligned(pos, alignment) && pos % alignment != 0;
    }
  }

  lemma {:induction false} PrefixLength(n: nat)
    ensures n < 128 ==> |Prefix(n)| == 1
    ensures 128 <= n < 16384 ==> |Prefix(n)| == 2
  {
    if 128 <= n < 16384 {
      assert Encode(n / 128) == [n / 128];
    }
  }

  /** The length encoding grows at most once over 257 consecutive lengths. */
  lemma {:induction false} GrowsOnce(m: nat, n: nat)
    requires 1 <= m <= n <= m + 257
    ensures Length(m) <= Length(n) <= Length(m) + 1
  {
    hide Pow2, Encode;
    LengthMono(m, n);
    LengthBounds(m);
    var l := Length(m);
    assert Pow2(7) == 128 by {
      Pow2Table();
    }
    Pow2Mono(7, 7 * l);
    Pow2Add(7 * l, 7);
    LengthBounds(n);
    if Length(n) > l + 1 {
      Pow2Mono(7 * l + 7, 7 * (Length(n) - 1));
    }
  }

  /** Over a run of paddings with fixed prefix and length sizes the position moves in steps of one, so
      it passes an aligned one. */
  lemma {:induction false} AlignedInRun(start: nat, name: nat, content: nat, al: nat, a: nat, c: nat) returns (p: nat)
    requires al >= 1
    requires forall q: nat :: a <= q < a + al ==> ContentPos(start, name, content, q) == c + q
    ensures a <= p < a + al && ContentPos(start, name, content, p) % al == 0
  {
    var b := c + a;
    var t, r := DivModDef(b, al);
    if r == 0 {
      p := a;
      assert ContentPos(start, name, content, p) == b;
    } else {
      p := a + (al - r);
      MulAdd(t, 1, al);
      DivModUnique(b + al - r, al, t + 1, 0);
      assert ContentPos(start, name, content, p) == b + al - r;
    }
  }

  /** Both halves of the range have a fixed prefix, and in one of them the length encoding is fixed. */
  lemma {:induction false} PaddingFound(start: nat, name: nat, content: nat, k: nat) returns (p: nat)
    requires k <= 7
    ensures p < 2 * Pow2(k) && IsAligned(ContentPos(start, name, content, p), Pow2(k))
  {
    hide Pow2, Encode, Prefix, IsAligned;
    var al := Pow2(k);
    assert al <= 128 by {
      Pow2Table();
      Pow2Mono(k, 7);
    }
    var s := name + content;
    var v1, v2 := 1, if al == 128 then 2 else 1;
    forall q: nat | q < 2 * al
      ensures PaddedSize(q) == q + if q < al then v1 else v2
    {
      PrefixLength(q);
      if al < 128 {
        Pow2Table();
        SmallAlignment(k);
      }
    }
    var first, middle, last := s + v1, s + al - 1 + v1, s + 2 * al - 1 + v2;
    GrowsOnce(first, last);
    LengthMono(first, middle);
    LengthMono(middle, last);
    if Length(middle) == Length(first) {
      forall q: nat | q < al
        ensures ContentPos(start, name, content, q) == start + 1 + Length(first) + name + v1 + q
      {
        LengthMono(first, s + q + v1);
        LengthMono(s + q + v1, middle);
      }
      p := AlignedInRun(start, name, content, al, 0, start + 1 + Length(first) + name + v1);
    } else {
      forall q: nat | al <= q < 2 * al
        ensures ContentPos(start, name, content, q) == start + 1 + Length(last) + name + v2 + q
      {
        LengthMono(middle, s + q + v2);
        LengthMono(s + q + v2, last);
      }
      p := AlignedInRun(start, name, content, al, al, start + 1 + Length(last) + name + v2);
    }
    AlignedIs(ContentPos(start, name, content, p), k);
  }

  lemma {:induction false} SmallAlignment(k: nat)
    requires k <= 7 && Pow2(k) < 128
    ensures Pow2(k) <= 64
  {
    hide Pow2;
    assert Pow2(7) == 128 by {
      Pow2Table();
    }
    Pow2Mono(k, 7);
  }

  // ----- larger alignments: it can fail -----

  lemma {:induction false} PrefixIs(n: nat)
    ensures |Prefix(n)| == if n == 0 then 1 else Length(n)
  {
  }

  lemma {:induction false} PaddedMono(p: nat, q: nat)
    requires p <= q
    ensures PaddedSize(p) + (q - p) <= PaddedSize(q)
  {
    hide Encode, Prefix;
    PrefixIs(p);
    PrefixIs(q);
    LengthMono(p, q);
    if p == 0 && q > 0 {
      LengthBounds(q);
    }
  }

  lemma {:induction false} BelowPow2(n: nat)
    ensures n < Pow2(n)
  {
    if n > 0 {
      BelowPow2(n - 1);
    }
  }

  /** The first padding whose vector has at least t bytes. */
  lemma {:induction false} FirstReaching(t: nat, p: nat) returns (x: nat)
    requires p <= t && forall q: nat :: q < p ==> PaddedSize(q) < t
    ensures x <= t && PaddedSize(x) >= t && forall q: nat :: q < x ==> PaddedSize(q) < t
    decreases t - p
  {
    hide PaddedSize;
    if PaddedSize(p) >= t {
      x := p;
    } else {
      AtLeastPadding(p);
      x := FirstReaching(t, p + 1);
    }
  }

  lemma {:induction false} AtLeastPadding(p: nat)
    ensures PaddedSize(p) > p
  {
  }

  /** Around 128^i the prefix grows from i to i + 1 bytes. */
  lemma {:induction false} PrefixJump(i: nat)
    requires i >= 1
    ensures Pow2(7 * i) >= 128
    ensures PaddedSize(Pow2(7 * i) - 1) == Pow2(7 * i) - 1 + i && PaddedSize(Pow2(7 * i)) == Pow2(7 * i) + i + 1
  {
    hide Pow2, Encode, Prefix;
    var P := Pow2(7 * i);
    assert Pow2(7) == 128 by {
      Pow2Table();
    }
    Pow2Mono(7, 7 * i);
    Pow2Add(7 * (i - 1), 7);
    PrefixIs(P - 1);
    PrefixIs(P);
    LengthAt(P - 1, i);
    Pow2Mono(7 * i, 7 * (i + 1));
    LengthAt(P, i + 1);
  }

  /** No padding below 2^(k+1) needs more than i + 2 bytes of prefix when k <= 7 (i + 1). */
  lemma {:induction false} PrefixAtMost(k: nat, i: nat, p: nat)
    requires k <= 7 * (i + 1) && p < Pow2(k + 1)
    ensures PaddedSize(p) <= p + i + 2
  {
    hide Pow2, Encode, Prefix;
    PrefixIs(p);
    if p > 0 {
      LengthBounds(p);
      if Length(p) > i + 2 {
        Pow2Mono(k + 1, 7 * (Length(p) - 1));
      }
    }
  }

  /** Strictly between neighbouring multiples of al, from -al to 2 al. */
  predicate Between(al: int, d: int) {
    -al < d < 0 || 0 < d < al || al < d < 2 * al
  }

  /** The values between which the offsets of all paddings fall; none is a multiple of al away from
      the target. */
  lemma {:induction false} NotMultiple(c: nat, al: nat, d: int)
    requires al > 0 && Between(al, d) && c * al + d >= 0
    ensures (c * al + d) % al != 0
  {
    if d < 0 {
      MulAdd(c, -1, al);
      DivModUnique(c * al + d, al, c - 1, al + d);
    } else if d < al {
      DivModUnique(c * al + d, al, c, d);
    } else {
      MulAdd(c, 1, al);
      DivModUnique(c * al + d, al, c + 1, d - al);
    }
  }

  /** A power of 128 that is at least n, and less than 128 times as large. */
  lemma {:induction false} GroupsFor(n: nat) returns (j: nat)
    requires n >= 2
    ensures j >= 1 && n <= Pow2(7 * j) < 128 * n
  {
    hide Pow2, Length;
    j := Length(n - 1);
    LengthBounds(n - 1);
    Pow2Add(7 * (j - 1), 7);
    assert Pow2(7) == 128 by {
      Pow2Table();
    }
  }

  /** The padding x at which the section length is made to grow from j to j + 1 bytes, and the content that
      does it. */
  lemma {:induction false} ChooseContent(k: nat, name: nat, i: nat, P: nat, al: nat)
    returns (x: nat, content: nat, j: nat)
    requires k >= 8 && i == (k - 1) / 7 && P == Pow2(7 * i) && al == Pow2(k)
    ensures PaddedSize(x) >= al + P + i && x <= al + P + i
    ensures forall q: nat :: q < x ==> PaddedSize(q) < al + P + i
    ensures j >= 1 && 4 * al + name <= Pow2(7 * j) < 512 * al + 128 * name
    ensures PaddedSize(x) + name + content == Pow2(7 * j)
  {
    hide Pow2, PaddedSize;
    SmallParts(k, i);
    j := GroupsFor(4 * al + name);
    x := FirstReaching(al + P + i, 0);
    PrefixAtMost(k, i, x);
    content := Pow2(7 * j) - PaddedSize(x) - name;
  }

  /** The skipped paddings lie well inside the searched range. */
  lemma {:induction false} SmallParts(k: nat, i: nat)
    requires k >= 8 && i == (k - 1) / 7
    ensures var al, P := Pow2(k), Pow2(7 * i);
      2 * P <= al && 128 <= P && 7 * i < P && al >= 256 && Pow2(k + 1) == 2 * al
  {
    hide Pow2;
    assert Pow2(7) == 128 && Pow2(8) == 256 by {
      Pow2Table();
    }
    BelowPow2(7 * i);
    Pow2Mono(7 * i + 1, k);
    Pow2Mono(7, 7 * i);
    Pow2Mono(8, k);
    Pow2Succ(7 * i);
    Pow2Succ(k);
  }

  lemma {:induction false} StartFor(al: nat, t: nat) returns (start: nat, c: nat)
    requires al >= 1
    ensures start < al && start + t == c * al
  {
    var q, r := DivModDef(t, al);
    if r == 0 {
      start, c := 0, q;
    } else {
      start, c := al - r, q + 1;
      MulAdd(q, 1, al);
    }
  }

  /** For every name there is a layout for which every padding misses, with a content of less than 512
      alignments plus 128 name lengths: the position skips the wanted residue once where the padding's own prefix
      grows, and once more, one alignment later, where the section length's encoding grows. */
  lemma {:induction false} PaddingMissing(k: nat, name: nat) returns (start: nat, content: nat)
    requires k >= 8
    ensures start < Pow2(k) && content < 512 * Pow2(k) + 128 * name
    ensures forall p: nat :: p < 2 * Pow2(k) ==> !IsAligned(ContentPos(start, name, content, p), Pow2(k))
  {
    hide Pow2, IsAligned, PaddedSize, ContentPos;
    var al, i := Pow2(k), (k - 1) / 7;
    var P := Pow2(7 * i);
    var x, j, c;
    x, content, j := ChooseContent(k, name, i, P, al);
    var t := P + i + j + name + 1;
    start, c := StartFor(al, t);
    forall p: nat | p < 2 * al
      ensures !IsAligned(ContentPos(start, name, content, p), al)
    {
      MissedAt(k, name, i, j, P, x, content, p, al);
      var d := ContentPos(0, name, content, p) - t;
      NotMultiple(c, al, d);
      AlignedIs(ContentPos(start, name, content, p), k);
    }
  }

  /** Where padding p puts the content, relative to the skipped position P + i + j + name + 1. */
  lemma {:induction false} MissedAt(k: nat, name: nat, i: nat, j: nat, P: nat, x: nat, content: nat, p: nat, al: nat)
    requires k >= 8 && i == (k - 1) / 7 && P == Pow2(7 * i) && al == Pow2(k) && p < 2 * al
    requires PaddedSize(x) >= al + P + i && x <= al + P + i
    requires forall q: nat :: q < x ==> PaddedSize(q) < al + P + i
    requires j >= 1 && 4 * al <= Pow2(7 * j) && PaddedSize(x) + name + content == Pow2(7 * j)
    ensures var d := ContentPos(0, name, content, p) - (P + i + j + name + 1);
      Between(al, d)
    ensures forall s: nat :: ContentPos(s, name, content, p) == s + ContentPos(0, name, content, p)
  {
    hide Pow2, Encode, Prefix;
    PrefixJump(i);
    SmallParts(k, i);
    PrefixAtMost(k, i, p);
    PrefixAtMost(k, i, x);
    SectionLengthAt(j, name, x, content, p, al);
    AtLeastPadding(p);
    if p < P {
      PaddedMono(p, P - 1);
    } else {
      PaddedMono(P, p);
    }
    if x <= p {
      PaddedMono(x, p);
    }
    if x <= P {
      PaddedMono(x, P);
    }
  }

  /** The section length has j groups before padding x and j + 1 from there on. */
  lemma {:induction false} SectionLengthAt(j: nat, name: nat, x: nat, content: nat, p: nat, al: nat)
    requires j >= 1 && 4 * al <= Pow2(7 * j) && PaddedSize(x) + name + content == Pow2(7 * j)
    requires PaddedSize(x) <= 3 * al && PaddedSize(p) <= 3 * al
    ensures Length(name + PaddedSize(p) + content) == if p < x then j else j + 1
  {
    hide Pow2, Encode, PaddedSize;
    assert Pow2(7) == 128 by {
      Pow2Table();
    }
    Pow2Add(7 * (j - 1), 7);
    Pow2Add(7 * j, 7);
    if p < x {
      PaddedMono(p, x);
      LengthAt(name + PaddedSize(p) + content, j);
    } else {
      PaddedMono(x, p);
      LengthAt(name + PaddedSize(p) + content, j + 1);
    }
  }

  /** Some padding in the searched range aligns the content. */
  ghost predicate Findable(alignment: nat, start: nat, name: nat, content: nat) {
    exists p: nat :: p < 2 * alignment && IsAligned(ContentPos(start, name, content, p), alignment)
  }

  /** With any name, calc_padding with a power-of-two alignment finds a padding for every layout if and only
      if the alignment is at most 128; and layouts of moderate size are enough to tell. */
  lemma {:induction false} AlwaysFoundIff(k: nat, name: nat)
    ensures (forall start: nat, content: nat :: Findable(Pow2(k), start, name, content)) <==> k <= 7
    ensures (forall start: nat, content: nat :: start < Pow2(k) && content < 512 * Pow2(k) + 128 * name ==>
      Findable(Pow2(k), start, name, content)) <==> k <= 7
  {
    hide Pow2, IsAligned, ContentPos;
    if k <= 7 {
      forall start: nat, content: nat
        ensures Findable(Pow2(k), start, name, content)
      {
        var p := PaddingFound(start, name, content, k);
      }
    } else {
      var start, content := PaddingMissing(k, name);
      assert !Findable(Pow2(k), start, name, content);
    }
  }

  // ----- the section -----

  datatype Error = NotAscii | NoPadding | NotAligned
  datatype Result<T> = Ok(value: T) | Err(error: Error)

  function Body(name: seq<byte>, padding: nat, content: seq<byte>): seq<byte> {
    Vector(name) + Vector(Zeros(padding)) + content
  }

  /** Section id 0, the length of the body, and the body. */
  function Section(name: seq<byte>, padding: nat, content: seq<byte>): seq<byte> {
    [0] + Encode(|Body(name, padding, content)|) + Body(name, padding, content)
  }

  /** name.encode("ascii"). */
  predicate IsAscii(name: string) {
    forall i :: 0 <= i < |name| ==> name[i] as int < 128
  }

  function AsciiBytes(name: string): (bs: seq<byte>)
    requires IsAscii(name)
    ensures |bs| == |name| && forall i :: 0 <= i < |name| ==> bs[i] == name[i] as int
  {
    seq(|name|, i requires 0 <= i < |name| => name[i] as int)
  }

  /** The content starts where calc_padding said it would. */
  lemma {:induction false} ContentOffset(start: nat, name: seq<byte>, padding: nat, content: seq<byte>)
    ensures start + |Section(name, padding, content)| - |content|
      == ContentPos(start, |Vector(name)|, |content|, padding)
  {
  }

  /** create_custom_section_aligned.  When calc_padding finds nothing it returns None, whose length
      line 111 asks for. */
  method CreateAligned(start: nat, name: string, content: seq<byte>, alignment: nat)
    returns (r: Result<seq<byte>>)
    ensures r.Ok? <==> IsAscii(name) && Findable(alignment, start, |Vector(AsciiBytes(name))|, |content|)
    ensures r.Err? ==> r.error == if IsAscii(name) then NoPadding else NotAscii
    ensures r.Ok? ==> alignment >= 1 && |content| <= |r.value| && IsAligned(start + |r.value| - |content|, alignment)
    ensures r.Ok? ==> exists p: nat :: p < 2 * alignment && r.value == Section(AsciiBytes(name), p, content)
    ensures r.Ok? ==> ReadsAs(r.value, name, content)
  {
    hide IsAligned, Encode, Prefix, Vector, ContentPos;
    if !IsAscii(name) {
      return Err(NotAscii);
    }
    var nameBin := Vector(AsciiBytes(name));
    var found := CalcPadding(alignment, |nameBin|, |content|, start);
    if found == None {
      return Err(NoPadding);
    }
    var paddingBin := Vector(Zeros(found.value));
    var pos, full := start, [];
    pos, full := pos + 1, full + [0];
    var sectionLength := |nameBin| + |paddingBin| + |content|;
    var sectionLengthBin := EncodeUint(sectionLength);
    pos, full := pos + |sectionLengthBin|, full + sectionLengthBin;
    pos, full := pos + |nameBin|, full + nameBin;
    pos, full := pos + |paddingBin|, full + paddingBin;
    Assembled(AsciiBytes(name), found.value, content, full);
    ContentOffset(start, AsciiBytes(name), found.value, content);
    if !IsAligned(pos, alignment) {
      return Err(NotAligned);
    }
    full := full + content;
    SectionReadsAs(name, found.value, content);
    r := Ok(full);
  }

  lemma {:induction false} Assembled(name: seq<byte>, padding: nat, content: seq<byte>, full: seq<byte>)
    requires full == [0] + Encode(|Vector(name)| + |Vector(Zeros(padding))| + |content|) + Vector(name) + Vector(Zeros(padding))
    ensures full + content == Section(name, padding, content)
  {
  }

  /** With an alignment of 2^k, k <= 7, no layout fails. */
  method CreateAlignedSmall(start: nat, name: string, content: seq<byte>, alignment: nat, ghost k: nat)
    returns (section: seq<byte>)
    requires k <= 7 && alignment == Pow2(k) && IsAscii(name)
    ensures |content| <= |section| && (start + |section| - |content|) % alignment == 0
    ensures exists p: nat :: p < 2 * alignment && section == Section(AsciiBytes(name), p, content)
    ensures ReadsAs(section, name, content)
  {
    hide Pow2, IsAligned, Section, Vector, ReadsAs;
    var r := CreateAligned(start, name, content, alignment);
    ghost var p := PaddingFound(start, |Vector(AsciiBytes(name))|, |content|, k);
    assert Findable(alignment, start, |Vector(AsciiBytes(name))|, |content|);
    section := r.value;
    AlignedIs(start + |section| - |content|, k);
  }

  // ----- reading it back -----

  /** A custom section as sections 5.5.2 and 5.5.3 of the WebAssembly Core Specification lay it out,
      with the padding vector as the first part of the payload. */
  datatype Custom = Custom(id: byte, size: nat, name: seq<byte>, padding: seq<byte>, content: seq<byte>)

  /** A vector of bytes at the start of bs, and what follows it. */
  function ReadVector(bs: seq<byte>): Option<(seq<byte>, seq<byte>)> {
    if bs == [] then None
    else
      var (l, n) := Decode(bs);
      if l + n <= |bs| then Some((bs[l..l + n], bs[l + n..])) else None
  }

  function ReadSection(bs: seq<byte>): Option<Custom> {
    if |bs| < 2 then None
    else
      var (l, size) := Decode(bs[1..]);
      if |bs| != 1 + l + size then None
      else
        match ReadVector(bs[1 + l..])
        case None => None
        case Some((name, rest)) =>
          match ReadVector(rest)
          case None => None
          case Some((padding, content)) => Some(Custom(bs[0], size, name, padding, content))
  }

  lemma {:induction false} ReadVectorBack(content: seq<byte>, rest: seq<byte>)
    ensures ReadVector(Vector(content) + rest) == Some((content, rest))
  {
    hide Encode;
    var n, bs := |content|, Vector(content) + rest;
    if n == 0 {
      assert bs == [0] + rest;
      assert Decode(bs) == (1, 0);
      assert bs[1..1] == content;
    } else {
      assert bs == Encode(n) + (content + rest);
      DecodeEncode(n, content + rest);
      var l := |Encode(n)|;
      assert bs[l..l + n] == content;
      assert bs[l + n..] == rest;
    }
  }

  /** Reading a built section gives id 0, the number of remaining bytes, the name, the zero padding and
      the content. */
  lemma {:induction false} ReadBack(name: seq<byte>, padding: nat, content: seq<byte>)
    ensures ReadSection(Section(name, padding, content))
      == Some(Custom(0, |Body(name, padding, content)|, name, Zeros(padding), content))
  {
    hide Encode, Decode, Vector, ReadVector;
    var body := Body(name, padding, content);
    var bs := Section(name, padding, content);
    VectorNonempty(name);
    DecodeEncode(|body|, body);
    var l := |Encode(|body|)|;
    assert bs[1..] == Encode(|body|) + body;
    assert bs[1 + l..] == body;
    ReadVectorBack(name, Vector(Zeros(padding)) + content);
    assert body == Vector(name) + (Vector(Zeros(padding)) + content);
    ReadVectorBack(Zeros(padding), content);
  }

  /** A reader finds a whole custom section with this name, letter by letter, zeros for padding and this
      content. */
  ghost predicate ReadsAs(bs: seq<byte>, name: string, content: seq<byte>) {
    var c := ReadSection(bs);
    && c.Some? && c.value.id == 0 && c.value.content == content
    && |c.value.name| == |name| && (forall i :: 0 <= i < |name| ==> c.value.name[i] == name[i] as int)
    && forall i :: 0 <= i < |c.value.padding| ==> c.value.padding[i] == 0
  }

  lemma {:induction false} SectionReadsAs(name: string, padding: nat, content: seq<byte>)
    requires IsAscii(name)
    ensures ReadsAs(Section(AsciiBytes(name), padding, content), name, content)
  {
    hide ReadSection, Section;
    ReadBack(AsciiBytes(name), padding, content);
  }

  lemma {:induction false} VectorNonempty(content: seq<byte>)
    ensures |Vector(content)| >= 1
  {
  }
}
