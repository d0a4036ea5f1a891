/** Request and response packets of the AssemblyScript application library. */
module Packets {
  import opened Words

  /** UTF-16 code units, as in AssemblyScript strings. */
  type unit = u: int | 0 <= u < 0x1_0000

  datatype Error = VersionMismatch | SizeError | RangeError | Trap
  datatype Result<T> = Ok(value: T) | Err(error: Error)

  datatype Request = Request(mid: int32, url: seq<unit>, action: int32, fmt: int32,
                             payload: seq<byte>, payloadLen: int32, sender: int32)

  /** The payload may be null. */
  datatype Buffer = Null | Bytes(data: seq<byte>)

  datatype Response = Response(mid: int32, status: int32, fmt: int32, payload: Buffer,
                               payloadLen: int32, receiver: int32)

  // ----- big-endian fields, the default of DataView -----

  /** The k low bytes of n, most significant first. */
  function BigEndian(n: nat, k: nat): (bs: seq<byte>)
    ensures |bs| == k
    decreases k
  {
    if k == 0 then [] else BigEndian(n / 256, k - 1) + [n % 256]
  }

  function FromBytes(bs: seq<byte>): nat {
    if bs == [] then 0 else 256 * FromBytes(bs[..|bs| - 1]) + bs[|bs| - 1]
  }

  lemma {:induction false} FromBigEndian(n: nat, k: nat)
    ensures FromBytes(BigEndian(n, k)) == n % Pow2(8 * k)
    decreases k
  {
    hide Pow2;
    assert Pow2(8) == 256 && Pow2(0) == 1 by {
      Pow2Table();
    }
    if k > 0 {
      FromBigEndian(n / 256, k - 1);
      Pow2Add(8, 8 * (k - 1));
      DivDiv(n, 256, Pow2(8 * (k - 1)));
      assert BigEndian(n, k)[..k - 1] == BigEndian(n / 256, k - 1);
    }
  }

  lemma {:induction false} ToBigEndian(bs: seq<byte>)
    ensures BigEndian(FromBytes(bs), |bs|) == bs
  {
    if bs != [] {
      var n := |bs| - 1;
      ToBigEndian(bs[..n]);
      DivModUnique(FromBytes(bs), 256, FromBytes(bs[..n]), bs[n]);
      assert bs == bs[..n] + [bs[n]];
    }
  }

  lemma {:induction false} FromBytesBound(bs: seq<byte>)
    ensures FromBytes(bs) < Pow2(8 * |bs|)
  {
    hide Pow2;
    assert Pow2(8) == 256 && Pow2(0) == 1 by {
      Pow2Table();
    }
    if bs != [] {
      FromBytesBound(bs[..|bs| - 1]);
      Pow2Add(8, 8 * (|bs| - 1));
    }
  }

  /** setUint8, setUint16 and setUint32 cut their argument to the field. */
  function Put8(n: int): seq<byte> {
    [n % 256]
  }

  function Put16(n: int): (bs: seq<byte>)
    ensures |bs| == 2
  {
    BigEndian(n % 0x1_0000, 2)
  }

  function Put32(n: int): (bs: seq<byte>)
    ensures |bs| == 4
  {
    BigEndian(ToWord(n), 4)
  }

  /** The bytes of a field by division, most significant first, for negative numbers in two's complement. */
  lemma {:induction false} FieldBytes(n: int)
    ensures Put16(n) == [n / 256 % 256, n % 256]
    ensures Put32(n) == [n / 0x100_0000 % 256, n / 0x1_0000 % 256, n / 256 % 256, n % 256]
  {
    hide BigEndian;
    BytesAt(n % 0x1_0000);
    BytesAt(ToWord(n));
    var q, r := DivModDef(n, 0x1_0000);
    DivModUnique(n, 256, 256 * q + r / 256, r % 256);
    DivModUnique(256 * q + r / 256, 256, q, r / 256);
    WordParts(n);
  }

  lemma {:induction false} BytesAt(n: nat)
    ensures BigEndian(n, 2) == [n / 256 % 256, n % 256]
    ensures BigEndian(n, 4) == [n / 256 / 256 / 256 % 256, n / 256 / 256 % 256, n / 256 % 256, n % 256]
  {
    assert BigEndian(n / 256 / 256, 0) == [];
    assert BigEndian(n / 256, 1) == [n / 256 % 256];
    assert BigEndian(n, 2) == [n / 256 % 256, n % 256];
    assert BigEndian(n / 256 / 256 / 256, 1) == [n / 256 / 256 / 256 % 256];
    assert BigEndian(n / 256 / 256, 2) == [n / 256 / 256 / 256 % 256, n / 256 / 256 % 256];
    assert BigEndian(n / 256, 3) == [n / 256 / 256 / 256 % 256, n / 256 / 256 % 256, n / 256 % 256];
  }

  /** The bytes of n are those of its 32-bit word. */
  lemma {:induction false} WordParts(n: int)
    ensures var w: int := ToWord(n);
      && w / 256 / 256 / 256 % 256 == n / 0x100_0000 % 256 && w / 256 / 256 % 256 == n / 0x1_0000 % 256
      && w / 256 % 256 == n / 256 % 256 && w % 256 == n % 256
  {
    var q, w := DivModDef(n, 0x1_0000_0000);
    var w1, d := DivModDef(w, 256);
    var w2, c := DivModDef(w1, 256);
    var a, b := DivModDef(w2, 256);
    DivModUnique(a, 256, 0, a);
    var m1, m2, m3 := 0x100_0000 * q + w1, 0x1_0000 * q + w2, 256 * q + a;
    DivModUnique(n, 256, m1, d);
    DivModUnique(n, 0x1_0000, m2, c * 256 + d);
    DivModUnique(n, 0x100_0000, m3, b * 0x1_0000 + c * 256 + d);
    DivModUnique(m1, 256, 0x1_0000 * q + w2, c);
    DivModUnique(m2, 256, 256 * q + a, b);
    DivModUnique(m3, 256, q, a);
  }

  function Get16(p: seq<byte>, i: nat): (n: nat)
    requires i + 2 <= |p|
    ensures n < 0x1_0000
  {
    FieldBound(p[i..i + 2]);
    FromBytes(p[i..i + 2])
  }

  function Get32(p: seq<byte>, i: nat): word
    requires i + 4 <= |p|
  {
    FieldBound(p[i..i + 4]);
    FromBytes(p[i..i + 4])
  }

  lemma {:induction false} FieldBound(bs: seq<byte>)
    ensures |bs| == 2 ==> FromBytes(bs) < 0x1_0000
    ensures |bs| == 4 ==> FromBytes(bs) < 0x1_0000_0000
  {
    hide Pow2;
    Pow2Table();
    FromBytesBound(bs);
  }

  lemma {:induction false} GetPut16(n: int, p: seq<byte>, i: nat)
    requires i + 2 <= |p| && p[i..i + 2] == Put16(n)
    ensures Get16(p, i) == n % 0x1_0000
  {
    hide Pow2, BigEndian, FromBytes;
    assert Pow2(16) == 0x1_0000 by {
      Pow2Table();
    }
    FromBigEndian(n % 0x1_0000, 2);
  }

  lemma {:induction false} GetPut32(n: int, p: seq<byte>, i: nat)
    requires i + 4 <= |p| && p[i..i + 4] == Put32(n)
    ensures Get32(p, i) == ToWord(n)
  {
    hide Pow2, BigEndian, FromBytes;
    assert Pow2(32) == 0x1_0000_0000 by {
      Pow2Table();
    }
    FromBigEndian(ToWord(n), 4);
  }

  lemma {:induction false} PutGet(p: seq<byte>, i: nat)
    ensures i + 2 <= |p| ==> Put16(Get16(p, i)) == p[i..i + 2]
    ensures i + 4 <= |p| ==> Put32(Get32(p, i)) == Put32(Signed(Get32(p, i))) == p[i..i + 4]
  {
    if i + 2 <= |p| {
      PutGet16(p, i);
    }
    if i + 4 <= |p| {
      PutGet32(p, i);
    }
  }

  lemma {:induction false} PutGet16(p: seq<byte>, i: nat)
    requires i + 2 <= |p|
    ensures Put16(Get16(p, i)) == p[i..i + 2]
  {
    hide BigEndian, FromBytes;
    ToBigEndian(p[i..i + 2]);
    SmallMod(Get16(p, i), 0x1_0000);
  }

  lemma {:induction false} PutGet32(p: seq<byte>, i: nat)
    requires i + 4 <= |p|
    ensures Put32(Get32(p, i)) == Put32(Signed(Get32(p, i))) == p[i..i + 4]
  {
    hide BigEndian, FromBytes;
    ToBigEndian(p[i..i + 4]);
    WordBack(Get32(p, i));
    SmallMod(Get32(p, i), 0x1_0000_0000);
  }

  lemma {:induction false} SmallMod(n: nat, m: nat)
    requires n < m
    ensures n % m == n
  {
  }

  // ----- packets as they are laid out -----

  /** String.codePointAt: a surrogate pair counts as one code point. */
  function CodePointAt(url: seq<unit>, i: nat): nat
    requires i < |url|
  {
    var hi: int := url[i];
    if 0xD800 <= hi < 0xDC00 && i + 1 < |url| && 0xDC00 <= url[i + 1] < 0xE000 then
      var lo: int := url[i + 1];
      (hi - 0xD800) * 0x400 + (lo - 0xDC00) + 0x1_0000
    else
      hi
  }

  /** The url as written, one byte for each code unit. */
  function UrlBytes(url: seq<unit>): (bs: seq<byte>)
    ensures |bs| == |url|
  {
    seq(|url|, i requires 0 <= i < |url| => CodePointAt(url, i) % 256)
  }

  /** Each unit gives its own low byte, but the first unit of a surrogate pair that of the second. */
  lemma {:induction false} UrlByte(url: seq<unit>, i: nat)
    requires i < |url|
    ensures var pair := i + 1 < |url| && 0xD800 <= url[i] < 0xDC00 && 0xDC00 <= url[i + 1] < 0xE000;
      UrlBytes(url)[i] == if pair then url[i + 1] % 256 else url[i] % 256
  {
    if 0xD800 <= url[i] < 0xDC00 && i + 1 < |url| && 0xDC00 <= url[i + 1] < 0xE000 {
      var hi: int, lo: int := url[i], url[i + 1];
      DivModUnique(CodePointAt(url, i), 256, (hi - 0xD800) * 4 + 256 + lo / 256 - 0xDC, lo % 256);
    }
  }

  function RequestHeader(r: Request): (h: seq<byte>)
    ensures |h| == 18
  {
    Put8(1) + Put8(r.action) + Put16(r.fmt) + Put32(r.mid) + Put32(r.sender)
    + Put16(|r.url| + 1) + Put32(r.payloadLen)
  }

  function RequestBytes(r: Request): seq<byte>
    requires 0 <= r.payloadLen <= |r.payload|
  {
    RequestHeader(r) + UrlBytes(r.url) + [0] + r.payload[..r.payloadLen]
  }

  function ResponseHeader(r: Response): (h: seq<byte>)
    ensures |h| == 16
  {
    Put8(1) + Put8(r.status) + Put16(r.fmt) + Put32(r.mid) + Put32(r.receiver) + Put32(r.payloadLen)
  }

  /** A null payload leaves the zeros of the new buffer. */
  function ResponseBytes(r: Response): seq<byte>
    requires 0 <= r.payloadLen && (r.payload.Bytes? ==> r.payloadLen <= |r.payload.data|)
  {
    ResponseHeader(r) + if r.payload.Null? then seq(r.payloadLen, _ => 0) else r.payload.data[..r.payloadLen]
  }

  // ----- packing -----

  /** A run of DataView setters that starts at n: it throws when it leaves the view. */
  method Put(view: array<byte>, n: nat, bs: seq<byte>) returns (ok: bool)
    requires n <= view.Length
    modifies view
    ensures ok <==> n + |bs| <= view.Length
    ensures ok ==> view[..n + |bs|] == old(view[..n]) + bs
    ensures forall k :: n + |bs| <= k < view.Length ==> view[k] == old(view[k])
  {
    ok := n + |bs| <= view.Length;
    if !ok {
      return;
    }
    for k := 0 to |bs|
      invariant view[..n + k] == old(view[..n]) + bs[..k]
      invariant forall m :: n + k <= m < view.Length ==> view[m] == old(view[m])
    {
      view[n + k] := bs[k];
      assert view[..n + k + 1] == view[..n + k] + [bs[k]];
    }
  }

  /** The platform's limits: strings below 2^30 units, and a largest buffer. */
  ghost predicate Packable(r: Request, maxLen: nat) {
    0 <= r.payloadLen <= |r.payload| && 19 + |r.url| + r.payloadLen <= maxLen
  }

  /** pack_request. */
  method PackRequest(r: Request, maxLen: nat) returns (p: Result<seq<byte>>)
    requires |r.url| < 0x4000_0000 && maxLen < 0x8000_0000
    ensures p.Ok? <==> 0 <= r.payloadLen <= |r.payload| && 19 + |r.url| + r.payloadLen <= maxLen
    ensures p.Ok? ==> p.value == RequestBytes(r)
    ensures p.Err? ==> p.error == RangeError
  {
    hide RequestHeader, UrlBytes, CodePointAt;
    var urlLen := |r.url| + 1;
    var len: int := Signed(ToWord(18 + urlLen + r.payloadLen));
    if len < 0 || len > maxLen {
      return Err(RangeError);
    }
    var view := new byte[len](_ => 0);
    var ok := Put(view, 0, RequestHeader(r));
    if !ok {
      return Err(RangeError);
    }
    ghost var done := RequestHeader(r);
    ok := PutUrl(view, r.url, done);
    if !ok {
      return Err(RangeError);
    }
    ok := Put(view, 18 + |r.url|, [0]);
    if !ok {
      return Err(RangeError);
    }
    done := done + UrlBytes(r.url) + [0];
    if r.payloadLen > |r.payload| {
      return Err(RangeError);
    }
    ok := PutPayload(view, 18 + urlLen, r.payload, r.payloadLen, done);
    p := Ok(view[..]);
  }

  /** Lines 229 to 232. */
  method PutUrl(view: array<byte>, url: seq<unit>, ghost done: seq<byte>) returns (ok: bool)
    requires 18 <= view.Length && view[..18] == done
    modifies view
    ensures ok <==> 18 + |url| <= view.Length
    ensures ok ==> view[..18 + |url|] == done + UrlBytes(url)
  {
    for i := 0 to |url|
      invariant 18 + i <= view.Length && view[..18 + i] == done + UrlBytes(url)[..i]
    {
      assert UrlBytes(url)[..i + 1] == UrlBytes(url)[..i] + Put8(CodePointAt(url, i));
      ok := Put(view, 18 + i, Put8(CodePointAt(url, i)));
      if !ok {
        return false;
      }
    }
    ok := true;
  }

  /** Lines 235 to 238. */
  method PutPayload(view: array<byte>, start: nat, payload: seq<byte>, n: int, ghost done: seq<byte>)
    returns (ok: bool)
    requires start <= view.Length && view[..start] == done && n <= |payload|
    requires start + n <= view.Length
    modifies view
    ensures ok && view[..start + if n < 0 then 0 else n] == done + payload[..if n < 0 then 0 else n]
  {
    var i := 0;
    while i < n
      invariant 0 <= i && (i <= n || i == 0) && view[..start + i] == done + payload[..i]
    {
      ok := Put(view, start + i, [payload[i]]);
      assert payload[..i + 1] == payload[..i] + [payload[i]];
      i := i + 1;
    }
    ok := true;
  }

  // ----- unpacking -----

  /** ArrayBuffer.slice with non-negative bounds. */
  function Slice(p: seq<byte>, begin: nat, end: nat): seq<byte> {
    var b := if begin < |p| then begin else |p|;
    var e := if end < |p| then end else |p|;
    if b <= e then p[b..e] else []
  }

  /** unpack_request; utf8 stands for String.UTF8.decode.  The size test is 32-bit arithmetic, and the
      constructor's i32(payload_len) traps from 2^31 on. */
  function UnpackRequest(p: seq<byte>, size: int32, utf8: seq<byte> -> seq<unit>): Result<Request> {
    if size < 0 || size > |p| || size == 0 then Err(RangeError)
    else if p[0] != 1 then Err(VersionMismatch)
    else if size < 18 then Err(SizeError)
    else
      var urlLen, payloadLen := Get16(p, 12), Get32(p, 14);
      if size != ToWord(18 + urlLen + payloadLen) then Err(SizeError)
      else if payloadLen >= 0x8000_0000 then Err(Trap)
      else
        var url := Slice(p, 18, 17 + urlLen);
        var payload := Slice(p, 18 + urlLen, 18 + urlLen + payloadLen);
        Ok(Request(Signed(Get32(p, 4)), utf8(url), p[1], Get16(p, 2), payload, payloadLen, Signed(Get32(p, 8))))
  }

  /** Which packets are accepted, and what becomes of the others: an empty or negative view throws, then the
      version is tested, then the length of the fixed part and the sum of the lengths.  A sum that wraps to
      the right size passes that test and traps, because its payload length is not a 32-bit integer. */
  lemma {:induction false} RequestAccepted(p: seq<byte>, size: int32, utf8: seq<byte> -> seq<unit>)
    ensures var r := UnpackRequest(p, size, utf8);
      if size <= 0 || size > |p| then r == Err(RangeError)
      else if p[0] != 1 then r == Err(VersionMismatch)
      else if size < 18 then r == Err(SizeError)
      else
        var sum := 18 + Get16(p, 12) + Get32(p, 14);
        if sum == size then r.Ok? else r == Err(if sum == size + 0x1_0000_0000 then Trap else SizeError)
  {
    hide Get16, Get32, Slice;
  }

  /** The fields of an accepted packet, at their offsets. */
  lemma {:induction false} RequestRead(p: seq<byte>, size: int32, utf8: seq<byte> -> seq<unit>)
    requires UnpackRequest(p, size, utf8).Ok?
    ensures var r := UnpackRequest(p, size, utf8).value; var u, n := Get16(p, 12), Get32(p, 14);
      && r.action == p[1] && r.fmt == Get16(p, 2) && ToWord(r.mid) == Get32(p, 4) && ToWord(r.sender) == Get32(p, 8)
      && r.url == utf8(if u == 0 then [] else p[18..17 + u])
      && r.payload == p[18 + u..18 + u + n] && r.payloadLen == n
  {
    hide Get16, Get32;
    RequestAccepted(p, size, utf8);
    WordBack(Get32(p, 4));
    WordBack(Get32(p, 8));
  }

  lemma {:induction false} WordBack(w: word)
    ensures ToWord(Signed(w)) == w
  {
  }

  ghost predicate Ascii(bs: seq<int>) {
    forall i :: 0 <= i < |bs| ==> 0 <= bs[i] < 128
  }

  /** All that is used of the decoder: ASCII bytes are themselves. */
  ghost predicate AsciiDecoder(utf8: seq<byte> -> seq<unit>) {
    forall bs: seq<byte> :: Ascii(bs) ==> utf8(bs) == bs
  }

  // ----- unpack after pack -----

  /** A field is found where it was put. */
  lemma {:induction false} FieldAt(p: seq<byte>, b: seq<byte>, q: seq<byte>, h: seq<byte>)
    requires h == p + b + q
    ensures h[|p|..|p| + |b|] == b
  {
  }

  lemma {:induction false} Regroup(a: seq<byte>, b: seq<byte>, c: seq<byte>, d: seq<byte>)
    ensures a + b + c + d == a + b + (c + d) && a + b + c == a + (b + c)
  {
  }

  lemma {:induction false} HeaderFields(r: Request)
    ensures var h := RequestHeader(r);
      && h[0] == 1 && h[1] == r.action % 256 && Get16(h, 2) == r.fmt % 0x1_0000
      && Get32(h, 4) == ToWord(r.mid) && Get32(h, 8) == ToWord(r.sender)
      && Get16(h, 12) == (|r.url| + 1) % 0x1_0000 && Get32(h, 14) == ToWord(r.payloadLen)
  {
    hide Put16, Put32, Get16, Get32;
    var h, u := RequestHeader(r), |r.url| + 1;
    var a := Put8(1) + Put8(r.action);
    var b := a + Put16(r.fmt);
    var c := b + Put32(r.mid);
    var d := c + Put32(r.sender);
    var e := d + Put16(u);
    FieldAt(e, Put32(r.payloadLen), [], h);
    var z := Put32(r.payloadLen);
    FieldAt(d, Put16(u), z, h);
    Regroup(c, Put32(r.sender), Put16(u), z);
    z := Put16(u) + z;
    FieldAt(c, Put32(r.sender), z, h);
    Regroup(b, Put32(r.mid), Put32(r.sender), z);
    z := Put32(r.sender) + z;
    FieldAt(b, Put32(r.mid), z, h);
    Regroup(a, Put16(r.fmt), Put32(r.mid), z);
    FieldAt(a, Put16(r.fmt), Put32(r.mid) + z, h);
    GetPut16(r.fmt, h, 2);
    GetPut16(u, h, 12);
    GetPut32(r.mid, h, 4);
    GetPut32(r.sender, h, 8);
    GetPut32(r.payloadLen, h, 14);
  }

  /** Fields in the first bytes do not depend on what follows. */
  lemma {:induction false} FieldsOfPrefix(h: seq<byte>, p: seq<byte>, i: nat)
    requires h <= p
    ensures i + 2 <= |h| ==> Get16(p, i) == Get16(h, i)
    ensures i + 4 <= |h| ==> Get32(p, i) == Get32(h, i)
  {
    if i + 2 <= |h| {
      assert p[i..i + 2] == h[i..i + 2];
    }
    if i + 4 <= |h| {
      assert p[i..i + 4] == h[i..i + 4];
    }
  }

  lemma {:induction false} PacketFields(h: seq<byte>, p: seq<byte>)
    requires h <= p && |h| == 18
    ensures p[0] == h[0] && p[1] == h[1]
    ensures Get16(p, 2) == Get16(h, 2) && Get32(p, 4) == Get32(h, 4) && Get32(p, 8) == Get32(h, 8)
    ensures Get16(p, 12) == Get16(h, 12) && Get32(p, 14) == Get32(h, 14)
  {
    hide Get16, Get32;
    FieldsOfPrefix(h, p, 2);
    FieldsOfPrefix(h, p, 4);
    FieldsOfPrefix(h, p, 8);
    FieldsOfPrefix(h, p, 12);
    FieldsOfPrefix(h, p, 14);
  }

  lemma {:induction false} AsciiUrl(url: seq<unit>)
    requires Ascii(url)
    ensures UrlBytes(url) == url && Ascii(UrlBytes(url))
  {
  }

  lemma {:induction false} SignedBack(n: int32)
    ensures Signed(ToWord(n)) == n
  {
  }

  /** What becomes of a packed request: its fields cut to their widths, its payload to the declared
      length. */
  lemma {:induction false} UnpackPacked(r: Request, maxLen: nat, utf8: seq<byte> -> seq<unit>)
    requires maxLen < 0x8000_0000 && Packable(r, maxLen) && Ascii(r.url) && AsciiDecoder(utf8)
    requires |r.url| < 0xFFFF
    ensures |RequestBytes(r)| < 0x8000_0000
    ensures UnpackRequest(RequestBytes(r), |RequestBytes(r)|, utf8)
      == Ok(Request(r.mid, r.url, r.action % 256, r.fmt % 0x1_0000, r.payload[..r.payloadLen], r.payloadLen, r.sender))
  {
    hide RequestHeader, Get16, Get32, UrlBytes, Ascii, Slice;
    var h, u, p := RequestHeader(r), UrlBytes(r.url), RequestBytes(r);
    var n := |r.url|;
    HeaderFields(r);
    PacketFields(h, p);
    AsciiUrl(r.url);
    SignedBack(r.mid);
    SignedBack(r.sender);
    assert p[18..18 + n] == u;
    SliceIs(p, 18, 18 + n);
    assert p[19 + n..|p|] == r.payload[..r.payloadLen];
    SliceIs(p, 19 + n, |p|);
    assert utf8(u) == u;
    assert 18 + (n + 1) + r.payloadLen == |p|;
  }

  lemma {:induction false} SliceIs(p: seq<byte>, b: nat, e: nat)
    requires b <= e <= |p|
    ensures Slice(p, b, e) == p[b..e]
  {
  }

  /** A packed request with an ASCII url unpacks to itself exactly when its fields fit their widths and
      the payload has the declared length. */
  lemma {:induction false} RequestRoundTrip(r: Request, maxLen: nat, utf8: seq<byte> -> seq<unit>)
    requires maxLen < 0x8000_0000 && Packable(r, maxLen) && Ascii(r.url) && AsciiDecoder(utf8)
    ensures |RequestBytes(r)| < 0x8000_0000
    ensures UnpackRequest(RequestBytes(r), |RequestBytes(r)|, utf8) == Ok(r) <==>
      0 <= r.action < 256 && 0 <= r.fmt < 0x1_0000 && |r.url| < 0xFFFF && r.payloadLen == |r.payload|
  {
    hide RequestBytes, UnpackRequest, Ascii, AsciiDecoder;
    if |r.url| < 0xFFFF {
      UnpackPacked(r, maxLen, utf8);
      Cut(r.payload, r.payloadLen);
    } else {
      TooLong(r, maxLen, utf8);
    }
  }

  lemma {:induction false} Cut(data: seq<byte>, n: nat)
    requires n <= |data|
    ensures data[..n] == data <==> n == |data|
  {
  }

  lemma {:induction false} TooLong(r: Request, maxLen: nat, utf8: seq<byte> -> seq<unit>)
    requires maxLen < 0x8000_0000 && Packable(r, maxLen) && |r.url| >= 0xFFFF
    ensures |RequestBytes(r)| < 0x8000_0000
    ensures UnpackRequest(RequestBytes(r), |RequestBytes(r)|, utf8) == Err(SizeError)
  {
    hide RequestHeader, Get16, Get32, UrlBytes;
    HeaderFields(r);
    PacketFields(RequestHeader(r), RequestBytes(r));
    LongUrl(|r.url|, r.payloadLen);
  }

  /** From 65535 units on, the length field is too small and the size test fails. */
  lemma {:induction false} LongUrl(n: nat, payloadLen: nat)
    requires n >= 0xFFFF && 19 + n + payloadLen < 0x8000_0000
    ensures 19 + n + payloadLen != ToWord(18 + (n + 1) % 0x1_0000 + payloadLen)
  {
  }

  // ----- pack after unpack -----

  lemma {:induction false} HeaderBack(r: Request, p: seq<byte>)
    requires |p| >= 18 && p[0] == 1 && r.action == p[1] && r.fmt == Get16(p, 2)
    requires r.mid == Signed(Get32(p, 4)) && r.sender == Signed(Get32(p, 8))
    requires |r.url| + 1 == Get16(p, 12) && r.payloadLen == Get32(p, 14)
    ensures RequestHeader(r) == p[..18]
  {
    hide BigEndian, Get16, Get32, Put32, Put16;
    PutGet(p, 2);
    PutGet(p, 4);
    PutGet(p, 8);
    PutGet(p, 12);
    PutGet(p, 14);
    assert p[..18] == p[0..1] + p[1..2] + p[2..4] + p[4..8] + p[8..12] + p[12..14] + p[14..18];
  }

  /** An accepted packet with an ASCII url packs to the same bytes exactly when its url field is
      terminated by a zero byte of its own. */
  lemma {:induction false} PacketRoundTrip(p: seq<byte>, utf8: seq<byte> -> seq<unit>)
    requires |p| < 0x8000_0000 && AsciiDecoder(utf8) && UnpackRequest(p, |p|, utf8).Ok?
    requires Ascii(Slice(p, 18, 17 + Get16(p, 12)))
    ensures var r := UnpackRequest(p, |p|, utf8).value; 0 <= r.payloadLen <= |r.payload|
    ensures var r := UnpackRequest(p, |p|, utf8).value;
      RequestBytes(r) == p <==> Get16(p, 12) >= 1 && p[17 + Get16(p, 12)] == 0
  {
    hide RequestHeader, Get16, Get32, UrlBytes, Ascii, Slice;
    var r := UnpackRequest(p, |p|, utf8).value;
    var n := Get16(p, 12);
    SliceIs(p, 18 + n, |p|);
    var q := RequestBytes(r);
    if n == 0 {
      SliceEmpty(p);
      assert |r.url| == 0;
      assert |q| == |p| + 1;
    } else {
      SliceIs(p, 18, 17 + n);
      AsciiUrl(r.url);
      HeaderBack(r, p);
      assert p == p[..18] + p[18..17 + n] + [p[17 + n]] + p[18 + n..];
      assert q == p[..18] + p[18..17 + n] + [0] + p[18 + n..];
      assert q[17 + n] == 0;
    }
  }

  lemma {:induction false} SliceEmpty(p: seq<byte>)
    requires |p| >= 18
    ensures Slice(p, 18, 17) == []
  {
  }

  /** The failing side is not empty: a header that declares no url and no payload is accepted without a
      terminator, and packs to one byte more. */
  lemma {:induction false} UnterminatedPacket(utf8: seq<byte> -> seq<unit>)
    requires AsciiDecoder(utf8)
    ensures var p: seq<byte> := [1] + seq(17, _ => 0); var r := UnpackRequest(p, 18, utf8);
      r.Ok? && 0 <= r.value.payloadLen <= |r.value.payload| && RequestBytes(r.value) != p
  {
    hide UnpackRequest, RequestBytes, Slice, Get16, Get32;
    var p: seq<byte> := [1] + seq(17, _ => 0);
    ZeroFields(p);
    SliceEmpty(p);
    AcceptsEmpty(p, utf8);
    PacketRoundTrip(p, utf8);
  }

  lemma {:induction false} ZeroFields(p: seq<byte>)
    requires |p| == 18 && forall i :: 1 <= i < 18 ==> p[i] == 0
    ensures Get16(p, 12) == 0 && Get32(p, 14) == 0
  {
    assert p[12..14] == [0, 0];
    assert p[14..18] == [0, 0, 0, 0];
    FromZeros(p[12..14]);
    FromZeros(p[14..18]);
  }

  lemma {:induction false} FromZeros(bs: seq<byte>)
    requires forall i :: 0 <= i < |bs| ==> bs[i] == 0
    ensures FromBytes(bs) == 0
  {
    if bs != [] {
      FromZeros(bs[..|bs| - 1]);
    }
  }

  lemma {:induction false} AcceptsEmpty(p: seq<byte>, utf8: seq<byte> -> seq<unit>)
    requires |p| == 18 && p[0] == 1 && Get16(p, 12) == 0 && Get32(p, 14) == 0
    ensures UnpackRequest(p, 18, utf8).Ok?
  {
    hide Get16, Get32;
  }

  // ----- responses -----

  /** unpack_response: the payload is the rest of the buffer. */
  function UnpackResponse(p: seq<byte>, size: int32): Result<Response> {
    if size < 0 || size > |p| || size == 0 then Err(RangeError)
    else if p[0] != 1 then Err(VersionMismatch)
    else if size < 16 then Err(SizeError)
    else
      var payloadLen := Get32(p, 12);
      if size != ToWord(16 + payloadLen) then Err(SizeError)
      else
        Ok(Response(Signed(Get32(p, 4)), p[1], Get16(p, 2), Bytes(p[16..]), Signed(payloadLen), Signed(Get32(p, 8))))
  }

  ghost predicate PackableResponse(r: Response, maxLen: nat) {
    && 0 <= r.payloadLen && (r.payload.Bytes? ==> r.payloadLen <= |r.payload.data|)
    && 16 + r.payloadLen <= maxLen
  }

  /** pack_response. */
  method PackResponse(r: Response, maxLen: nat) returns (p: Result<seq<byte>>)
    requires maxLen < 0x8000_0000
    ensures p.Ok? <==>
      && 0 <= r.payloadLen && (r.payload.Bytes? ==> r.payloadLen <= |r.payload.data|)
      && 16 + r.payloadLen <= maxLen
    ensures p.Ok? ==> p.value == ResponseBytes(r)
    ensures p.Err? ==> p.error == RangeError
  {
    hide ResponseHeader;
    var len: int := Signed(ToWord(16 + r.payloadLen));
    if len < 0 || len > maxLen {
      return Err(RangeError);
    }
    var view := new byte[len](_ => 0);
    var ok := Put(view, 0, ResponseHeader(r));
    if !ok {
      return Err(RangeError);
    }
    if r.payload.Bytes? {
      if r.payloadLen > |r.payload.data| {
        return Err(RangeError);
      }
      ok := PutPayload(view, 16, r.payload.data, r.payloadLen, ResponseHeader(r));
    } else {
      assert view[16..] == seq(r.payloadLen, _ => 0);
      assert view[..] == view[..16] + view[16..];
    }
    p := Ok(view[..]);
  }

  lemma {:induction false} ResponseFields(r: Response)
    ensures var h := ResponseHeader(r);
      && h[0] == 1 && h[1] == r.status % 256 && Get16(h, 2) == r.fmt % 0x1_0000
      && Get32(h, 4) == ToWord(r.mid) && Get32(h, 8) == ToWord(r.receiver) && Get32(h, 12) == ToWord(r.payloadLen)
  {
    hide Put16, Put32, Get16, Get32;
    var h := ResponseHeader(r);
    var a := Put8(1) + Put8(r.status);
    var b := a + Put16(r.fmt);
    var c := b + Put32(r.mid);
    var d := c + Put32(r.receiver);
    FieldAt(d, Put32(r.payloadLen), [], h);
    var z := Put32(r.payloadLen);
    FieldAt(c, Put32(r.receiver), z, h);
    Regroup(b, Put32(r.mid), Put32(r.receiver), z);
    z := Put32(r.receiver) + z;
    FieldAt(b, Put32(r.mid), z, h);
    Regroup(a, Put16(r.fmt), Put32(r.mid), z);
    FieldAt(a, Put16(r.fmt), Put32(r.mid) + z, h);
    GetPut16(r.fmt, h, 2);
    GetPut32(r.mid, h, 4);
    GetPut32(r.receiver, h, 8);
    GetPut32(r.payloadLen, h, 12);
  }

  /** A packed response unpacks with its fields cut to their widths; a null payload comes back as that
      many zero bytes. */
  lemma {:induction false} UnpackPackedResponse(r: Response, maxLen: nat)
    requires maxLen < 0x8000_0000 && PackableResponse(r, maxLen)
    ensures |ResponseBytes(r)| < 0x8000_0000
    ensures UnpackResponse(ResponseBytes(r), |ResponseBytes(r)|)
      == Ok(Response(r.mid, r.status % 256, r.fmt % 0x1_0000, Bytes(PayloadSent(r)), r.payloadLen, r.receiver))
  {
    hide ResponseHeader, Get16, Get32;
    var h, p := ResponseHeader(r), ResponseBytes(r);
    ResponseFields(r);
    assert h <= p;
    FieldsOfPrefix(h, p, 2);
    FieldsOfPrefix(h, p, 4);
    FieldsOfPrefix(h, p, 8);
    FieldsOfPrefix(h, p, 12);
    SignedBack(r.mid);
    SignedBack(r.receiver);
    SignedBack(r.payloadLen);
    assert p[16..] == PayloadSent(r);
  }

  /** What a receiver gets for a payload: zeros for null, else as many bytes as declared. */
  function PayloadSent(r: Response): (bs: seq<byte>)
    requires 0 <= r.payloadLen && (r.payload.Bytes? ==> r.payloadLen <= |r.payload.data|)
    ensures |bs| == r.payloadLen
    ensures forall i :: 0 <= i < |bs| ==> bs[i] == if r.payload.Null? then 0 else r.payload.data[i]
  {
    if r.payload.Null? then seq(r.payloadLen, _ => 0) else r.payload.data[..r.payloadLen]
  }

  /** Which packets are accepted as responses, and what becomes of the others. */
  lemma {:induction false} ResponseAccepted(p: seq<byte>, size: int32)
    ensures var r := UnpackResponse(p, size);
      if size <= 0 || size > |p| then r == Err(RangeError)
      else if p[0] != 1 then r == Err(VersionMismatch)
      else if size < 16 || size != 16 + Get32(p, 12) then r == Err(SizeError)
      else r.Ok?
  {
    hide Get16, Get32;
  }

  /** Every accepted response packs to the same bytes again. */
  lemma {:induction false} ResponsePacketRoundTrip(p: seq<byte>)
    requires |p| < 0x8000_0000
    ensures UnpackResponse(p, |p|).Ok? <==> |p| >= 16 && p[0] == 1 && |p| == 16 + Get32(p, 12)
    ensures UnpackResponse(p, |p|).Ok? ==> var r := UnpackResponse(p, |p|).value;
      && 0 <= r.payloadLen && r.payload.Bytes? && r.payloadLen == |r.payload.data|
      && ResponseBytes(r) == p
  {
    hide Get16, Get32, ResponseHeader;
    ResponseAccepted(p, |p|);
    if UnpackResponse(p, |p|).Ok? {
      var r := UnpackResponse(p, |p|).value;
      ResponseHeaderBack(r, p);
      assert r.payload.data[..r.payloadLen] == p[16..];
      assert p == p[..16] + p[16..];
    }
  }

  lemma {:induction false} ResponseHeaderBack(r: Response, p: seq<byte>)
    requires |p| >= 16 && p[0] == 1 && r.status == p[1] && r.fmt == Get16(p, 2)
    requires r.mid == Signed(Get32(p, 4)) && r.receiver == Signed(Get32(p, 8)) && r.payloadLen == Signed(Get32(p, 12))
    ensures ResponseHeader(r) == p[..16]
  {
    hide BigEndian, Get16, Get32, Put32, Put16;
    PutGet(p, 2);
    PutGet(p, 4);
    PutGet(p, 8);
    PutGet(p, 12);
    assert p[..16] == p[0..1] + p[1..2] + p[2..4] + p[4..8] + p[8..12] + p[12..16];
  }

  /** A response survives exactly when its fields fit and its payload is there in full. */
  lemma {:induction false} ResponseRoundTrip(r: Response, maxLen: nat)
    requires maxLen < 0x8000_0000 && PackableResponse(r, maxLen)
    ensures |ResponseBytes(r)| < 0x8000_0000
    ensures UnpackResponse(ResponseBytes(r), |ResponseBytes(r)|) == Ok(r) <==>
      0 <= r.status < 256 && 0 <= r.fmt < 0x1_0000 && r.payload.Bytes? && r.payloadLen == |r.payload.data|
  {
    hide UnpackResponse, ResponseHeader;
    UnpackPackedResponse(r, maxLen);
    if r.payload.Bytes? {
      Cut(r.payload.data, r.payloadLen);
    }
  }
}
