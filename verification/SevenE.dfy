/** The "7E" variable-length integers of the T0 byte code: the encoders of CodeElement.cs,
    the decoders that T0Comp.cs emits, and the T0_INTn macros for symbolic constants. */
module SevenE {
  import opened Machine32
  import opened Digits

  // ----- Encoders -----

  /** The output of the encoders (BlobWriter, seen as the bytes appended so far). */
  class Blob {
    var data: seq<byte>

    constructor ()
      ensures data == []
    {
      data := [];
    }

    method Append(b: byte)
      modifies this
      ensures data == old(data) + [b]
    {
      data := data + [b];
    }
  }

  /** Number of 7-bit chunks of an unsigned value. */
  function ULen(v: nat): (n: nat)
    ensures n >= 1
  {
    if v < 128 then 1 else 1 + ULen(v / 128)
  }

  /** Number of 7-bit chunks of a signed value, sign bit included. */
  function SLen(v: int): (n: nat)
    ensures n >= 1
    decreases if v < 0 then -v else v
  {
    if -64 <= v < 64 then 1 else 1 + SLen(v / 128)
  }

  /** The `n` low chunks of `v`, most significant first, with the continuation bit on all but the last. */
  function Chunks(v: int, n: nat): (bs: seq<byte>)
    ensures |bs| == n
  {
    if n == 0 then [] else
      [Shift(v, 7 * (n - 1)) % 128 + (if n > 1 then 128 else 0)] + Chunks(v, n - 1)
  }

  function EncodeU(v: nat): (bs: seq<byte>)
    ensures |bs| == ULen(v)
  {
    Chunks(v, ULen(v))
  }

  function EncodeS(v: int): (bs: seq<byte>)
    ensures |bs| == SLen(v)
  {
    Chunks(v, SLen(v))
  }

  method Append7E(val: int, len: nat, bw: Blob)
    requires len >= 1
    modifies bw
    ensures bw.data == old(bw.data) + Chunks(val, len)
  {
    var k := (len - 1) * 7;
    ghost var left: int := len;
    while k >= 0
      invariant 0 <= left && k == (left - 1) * 7
      invariant bw.data + Chunks(val, left) == old(bw.data) + Chunks(val, len)
      decreases left
    {
      var x := Shift(val, k) % 128;
      if k > 0 {
        x := x + 128;
      }
      ghost var was := bw.data;
      bw.Append(x);
      assert bw.data + Chunks(val, left - 1) == was + ([x] + Chunks(val, left - 1));
      k := k - 7;
      left := left - 1;
    }
    assert bw.data + [] == bw.data;
  }

  method Encode7EUnsigned(val: u32, bw: Blob?) returns (len: nat)
    modifies bw
    ensures len == ULen(val)
    ensures bw != null ==> bw.data == old(bw.data) + EncodeU(val)
  {
    len := 1;
    var w := val;
    while w >= 0x80
      invariant 0 <= w && len + ULen(w) == 1 + ULen(val)
    {
      len := len + 1;
      w := w / 128;
    }
    if bw != null {
      Append7E(val, len, bw);
    }
  }

  method Encode7ESigned(val: int, bw: Blob?) returns (len: nat)
    modifies bw
    ensures len == SLen(val)
    ensures bw != null ==> bw.data == old(bw.data) + EncodeS(val)
  {
    len := 1;
    var w := val;
    if val < 0 {
      while w < -0x40
        invariant w < 0 && len + SLen(w) == 1 + SLen(val)
        decreases -w
      {
        len := len + 1;
        w := w / 128;
      }
    } else {
      while w >= 0x40
        invariant 0 <= w && len + SLen(w) == 1 + SLen(val)
        decreases w
      {
        len := len + 1;
        w := w / 128;
      }
    }
    if bw != null {
      Append7E(val, len, bw);
    }
  }

  // ----- Emitted decoders -----

  /** Outcome of a decoder: the value and the new instruction pointer, or a read past the block. */
  datatype Parsed = Parsed(value: int, next: nat) | Overrun

  function ParseFrom(code: seq<byte>, ip: nat, x: u32): (r: Parsed)
    ensures r.Parsed? ==> 0 <= r.value < M32 && ip < r.next <= |code|
    decreases |code| - ip
  {
    if ip >= |code| then Overrun
    else
      var y := code[ip];
      var x' := U32(x * 128) + y % 128;
      if y < 128 then Parsed(x', ip + 1) else ParseFrom(code, ip + 1, x')
  }

  /** t0_parse7E_unsigned */
  function ParseUnsigned(code: seq<byte>, ip: nat): Parsed {
    ParseFrom(code, ip, 0)
  }

  /** t0_parse7E_signed */
  function ParseSigned(code: seq<byte>, ip: nat): Parsed {
    if ip >= |code| then Overrun
    else
      var neg := (code[ip] / 64) % 2 == 1;
      match ParseFrom(code, ip, if neg then M32 - 1 else 0)
      case Overrun => Overrun
      case Parsed(x, next) => Parsed(SignedResult(neg, x), next)
  }

  /** The last statement of t0_parse7E_signed: the low 32 bits, converted to signed with the overflow-free formula. */
  function SignedResult(neg: bool, x: u32): (r: int)
    ensures r == I32(x)
  {
    if neg then -I32(M32 - 1 - x) - 1 else I32(x)
  }

  lemma RoomForDigit(x: u32, y: byte)
    ensures 0 <= U32(x * 128) + y % 128 < 0x1_0000_0000
  {
  }

  method T0Parse7EUnsigned(code: seq<byte>, ip: nat) returns (r: Parsed)
    ensures r == ParseUnsigned(code, ip)
  {
    hide U32;
    var x: u32, p := 0, ip;
    while p < |code|
      invariant ip <= p
      invariant ParseFrom(code, p, x) == ParseFrom(code, ip, 0)
    {
      var y := code[p];
      p := p + 1;
      RoomForDigit(x, y);
      x := U32(x * 128) + y % 128;
      if y < 0x80 {
        return Parsed(x, p);
      }
    }
    return Overrun;
  }

  method T0Parse7ESigned(code: seq<byte>, ip: nat) returns (r: Parsed)
    ensures r == ParseSigned(code, ip)
  {
    hide U32, I32;
    if ip >= |code| {
      return Overrun;
    }
    var neg := (code[ip] / 64) % 2 == 1;
    var x: u32, p := if neg then M32 - 1 else 0, ip;
    while p < |code|
      invariant ip <= p
      invariant ParseFrom(code, p, x) == ParseFrom(code, ip, if neg then M32 - 1 else 0)
    {
      var y := code[p];
      p := p + 1;
      RoomForDigit(x, y);
      x := U32(x * 128) + y % 128;
      if y < 0x80 {
        return Parsed(SignedResult(neg, x), p);
      }
    }
    return Overrun;
  }

  // ----- Round trip -----

  /** The bytes `bs` stand in `code` at position `ip`. */
  ghost predicate At(code: seq<byte>, ip: nat, bs: seq<byte>) {
    ip + |bs| <= |code| && code[ip..ip + |bs|] == bs
  }

  lemma AtSplit(code: seq<byte>, ip: nat, a: seq<byte>, b: seq<byte>)
    ensures At(code, ip, a + b) <==> At(code, ip, a) && At(code, ip + |a|, b)
  {
    if ip + |a| + |b| <= |code| {
      assert code[ip..ip + |a| + |b|] == code[ip..ip + |a|] + code[ip + |a|..ip + |a| + |b|];
      if At(code, ip, a + b) {
        assert code[ip..ip + |a|] == (a + b)[..|a|];
        assert code[ip + |a|..ip + |a| + |b|] == (a + b)[|a|..];
      }
    }
  }

  lemma AtAppend(a: seq<byte>, b: seq<byte>, ip: nat, bs: seq<byte>)
    requires At(a, ip, bs)
    ensures At(a + b, ip, bs)
  {
    assert (a + b)[ip..ip + |bs|] == a[ip..ip + |bs|];
  }

  lemma AtEnd(a: seq<byte>, b: seq<byte>)
    ensures At(a + b, |a|, b)
  {
  }

  lemma AtHead(code: seq<byte>, ip: nat, b: byte, rest: seq<byte>)
    requires At(code, ip, [b] + rest)
    ensures ip < |code| && code[ip] == b && At(code, ip + 1, rest)
  {
    AtSplit(code, ip, [b], rest);
    assert code[ip] == code[ip..ip + 1][0];
  }

  /** A decoder whose accumulator holds the bits above the `n` chunks that follow ends with all the bits of `v`. */
  lemma {:induction false} ParseChunks(code: seq<byte>, ip: nat, v: int, n: nat)
    requires n >= 1 && At(code, ip, Chunks(v, n))
    ensures ParseFrom(code, ip, U32(Shift(v, 7 * n))) == Parsed(U32(v), ip + n)
    decreases n
  {
    hide At, U32;
    var top := Shift(v, 7 * (n - 1));
    ShiftSeven(v, 7 * (n - 1));
    assert Shift(v, 7 * n) == top / 128;
    var y := top % 128 + if n > 1 then 128 else 0;
    AtHead(code, ip, y, Chunks(v, n - 1));
    Accumulate(top);
    assert y % 128 == top % 128;
    if n > 1 {
      ParseChunks(code, ip + 1, v, n - 1);
    }
  }

  lemma Accumulate(t: int)
    ensures U32(U32(t / 128) * 128) + t % 128 == U32(t)
  {
    hide U32;
    var q, d := t / 128, t % 128;
    var k := U32Split(q);
    var h, l := U32(q) / 0x200_0000, U32(q) % 0x200_0000;
    U32Unique(U32(q) * 128, l * 128, h);
    U32Unique(t, l * 128 + d, h + 128 * k);
  }

  /** The bits above the encoded chunks of an unsigned value are zero. */
  lemma {:induction false} UnsignedTop(v: nat)
    ensures Shift(v, 7 * ULen(v)) == 0
  {
    if v < 128 {
      ShiftFront(v, 0);
    } else {
      UnsignedTop(v / 128);
      ShiftFront(v, 7 * ULen(v / 128));
    }
  }

  /** The bits above the encoded chunks of a signed value are copies of bit 6 of the first chunk. */
  lemma {:induction false} SignedTop(v: int)
    ensures Shift(v, 7 * (SLen(v) - 1)) / 64 == Shift(v, 7 * SLen(v)) == (if v < 0 then -1 else 0)
    decreases if v < 0 then -v else v
  {
    if -64 <= v < 64 {
      ShiftFront(v, 0);
    } else {
      SignedTop(v / 128);
      ShiftFront(v, 7 * SLen(v / 128));
      ShiftFront(v, 7 * (SLen(v / 128) - 1));
    }
  }

  /** Decoding `n` chunks whose top chunk carries the sign gives back the low 32 bits, read as signed. */
  lemma ParseSignedChunks(code: seq<byte>, ip: nat, v: int, n: nat)
    requires n >= 1 && At(code, ip, Chunks(v, n))
    requires Shift(v, 7 * (n - 1)) / 64 == Shift(v, 7 * n) == (if v < 0 then -1 else 0)
    ensures ParseSigned(code, ip) == Parsed(I32(U32(v)), ip + n)
  {
    hide ParseFrom, Chunks, Shift, At, U32, I32;
    var top := Shift(v, 7 * (n - 1));
    ChunksHead(v, n);
    AtHead(code, ip, top % 128 + (if n > 1 then 128 else 0), Chunks(v, n - 1));
    SignBit(top, n > 1);
    ParseChunks(code, ip, v, n);
    FillPattern();
  }

  lemma ChunksHead(v: int, n: nat)
    requires n >= 1
    ensures Chunks(v, n) == [Shift(v, 7 * (n - 1)) % 128 + (if n > 1 then 128 else 0)] + Chunks(v, n - 1)
  {
  }

  /** Bit 6 of the first chunk is the sign when the bits from 6 up are all equal to it. */
  lemma SignBit(top: int, more: bool)
    requires top / 64 == 0 || top / 64 == -1
    ensures (top % 128 + (if more then 128 else 0)) / 64 % 2 == 1 <==> top / 64 == -1
  {
  }

  lemma FillPattern()
    ensures U32(-1) == M32 - 1 && U32(0) == 0
  {
  }

  lemma UnsignedRoundTrip(code: seq<byte>, ip: nat, v: u32)
    requires At(code, ip, EncodeU(v))
    ensures ParseUnsigned(code, ip) == Parsed(v, ip + ULen(v))
  {
    hide ParseFrom, Chunks, Shift, At, U32, ULen;
    UnsignedTop(v);
    U32Identity(v);
    U32Identity(0);
    ParseChunks(code, ip, v, ULen(v));
  }

  lemma SignedRoundTrip(code: seq<byte>, ip: nat, v: i32)
    requires At(code, ip, EncodeS(v))
    ensures ParseSigned(code, ip) == Parsed(v, ip + SLen(v))
  {
    hide ParseSigned, Chunks, Shift, At, U32, I32, SLen;
    I32Identity(v);
    SignedTop(v);
    ParseSignedChunks(code, ip, v, SLen(v));
  }

  // ----- What the encoding is -----

  /** No shorter unsigned string has room for the value: 7 bits a byte. */
  lemma {:induction false} ULenRange(v: nat, k: nat)
    requires k >= 1
    ensures ULen(v) <= k <==> v < Pow2(7 * k)
    decreases k
  {
    hide Pow2;
    Pow2Seven(7 * (k - 1));
    SmallPowers();
    if k > 1 {
      if v >= 128 {
        ULenRange(v / 128, k - 1);
      } else {
        Pow2AtLeast(7 * (k - 1));
      }
    }
  }

  lemma SmallPowers()
    ensures Pow2(0) == 1 && Pow2(6) == 64 && Pow2(7) == 128
  {
    assert Pow2(3) == 8;
  }

  lemma Pow2AtLeast(k: nat)
    ensures Pow2(k) >= 1
  {
  }

  /** The same for signed values, with one of the bits for the sign. */
  lemma {:induction false} SLenRange(v: int, k: nat)
    requires k >= 1
    ensures SLen(v) <= k <==> -Pow2(7 * k - 1) <= v < Pow2(7 * k - 1)
    decreases k
  {
    hide Pow2;
    SmallPowers();
    if k > 1 {
      Pow2Seven(7 * (k - 1) - 1);
      if -64 <= v < 64 {
        Pow2Seven(7 * (k - 2) + 6);
        SixUp(k - 1);
      } else {
        SLenRange(v / 128, k - 1);
      }
    }
  }

  lemma {:induction false} SixUp(k: nat)
    requires k >= 1
    ensures Pow2(7 * k - 1) >= 64
    decreases k
  {
    SmallPowers();
    if k > 1 {
      SixUp(k - 1);
      Pow2Seven(7 * (k - 1) - 1);
    }
  }

  /** A string of the format: the continuation bit on all bytes but the last. */
  ghost predicate Terminated(bs: seq<byte>) {
    bs != [] && forall i :: 0 <= i < |bs| ==> (bs[i] >= 128 <==> i < |bs| - 1)
  }

  /** The 7-bit digits of a string. */
  ghost predicate Digits7(bs: seq<byte>, ds: seq<int>) {
    |ds| == |bs| && forall i :: 0 <= i < |bs| ==> ds[i] == bs[i] % 128
  }

  /** The string is the low chunks of every integer that its digits write, up to a multiple of 128^n. */
  lemma {:induction false} StringIsChunks(bs: seq<byte>, ds: seq<int>, k: int)
    requires Terminated(bs) && Digits7(bs, ds)
    ensures bs == Chunks(Num(ds, 128) + k * Pow2(7 * |bs|), |bs|)
    ensures Shift(Num(ds, 128) + k * Pow2(7 * |bs|), 7 * |bs|) == k
    decreases |bs|
  {
    hide *;
    var v := Num(ds, 128) + k * Pow2(7 * |bs|);
    DigitsBelow(bs, ds);
    NumBounds(ds);
    ShiftIs(v, 7 * |bs|, k, Num(ds, 128));
    FrontDigit(ds, k);
    FrontByte(bs, ds, k, v);
    if |bs| > 1 {
      StringIsChunks(bs[1..], ds[1..], ds[0] + 128 * k);
    }
  }

  lemma DigitsBelow(bs: seq<byte>, ds: seq<int>)
    requires Terminated(bs) && Digits7(bs, ds)
    ensures |ds| == |bs| > 0 && forall i :: 0 <= i < |ds| ==> 0 <= ds[i] < 128
    ensures |bs| > 1 ==> Terminated(bs[1..]) && Digits7(bs[1..], ds[1..])
  {
  }

  lemma FrontByte(bs: seq<byte>, ds: seq<int>, k: int, v: int)
    requires Terminated(bs) && Digits7(bs, ds) && Shift(v, 7 * (|bs| - 1)) == ds[0] + 128 * k
    ensures |bs| == 1 || bs[1..] == Chunks(v, |bs| - 1) ==> bs == Chunks(v, |bs|)
  {
    hide Shift, Chunks;
    var n := |bs|;
    ChunksHead(v, n);
    assert bs == [bs[0]] + bs[1..];
    DivAdd(ds[0], k);
    if n == 1 {
      NoChunks(v);
    }
  }

  /** The first digit, with the multiple of 128^n above it, stands over the number of the rest. */
  lemma FrontDigit(ds: seq<int>, k: int)
    requires ds != [] && forall i :: 0 <= i < |ds| ==> 0 <= ds[i] < 128
    ensures var n := |ds| - 1;
            var v := Num(ds, 128) + k * Pow2(7 * |ds|);
            && v == Num(ds[1..], 128) + (ds[0] + 128 * k) * Pow2(7 * n)
            && Shift(v, 7 * n) == ds[0] + 128 * k
  {
    hide *;
    var d, rest := ds[0], ds[1..];
    assert ds == [d] + rest;
    NumCons(d, rest);
    NumBounds(rest);
    TopDigit(d, k, |rest|);
    ShiftIs(Num(ds, 128) + k * Pow2(7 * |ds|), 7 * |rest|, d + 128 * k, Num(rest, 128));
  }

  lemma NoChunks(v: int)
    ensures Chunks(v, 0) == []
  {
  }

  lemma TopDigit(d: int, k: int, n: nat)
    ensures d * Pow2(7 * n) + k * Pow2(7 * (n + 1)) == (d + 128 * k) * Pow2(7 * n)
  {
    hide Pow2;
    Pow2Seven(7 * n);
  }

  /** The chunks of a value are a string of the format, and its digits write the value modulo 128^n. */
  lemma {:induction false} ChunksNumber(v: int, n: nat, ds: seq<int>)
    requires n >= 1 && Digits7(Chunks(v, n), ds)
    ensures Terminated(Chunks(v, n)) && Num(ds, 128) == v - Shift(v, 7 * n) * Pow2(7 * n)
    decreases n
  {
    hide Num, Pow2, Shift, Chunks;
    var top := Shift(v, 7 * (n - 1));
    ShiftSeven(v, 7 * (n - 1));
    ChunksHead(v, n);
    var rest := ds[1..];
    assert ds == [top % 128] + rest;
    NumCons(top % 128, rest);
    SmallPowers();
    if n > 1 {
      assert Digits7(Chunks(v, n - 1), rest);
      ChunksNumber(v, n - 1, rest);
      TopDigit(top % 128 - top, Shift(v, 7 * n), n - 1);
    } else {
      NumEmpty(128);
      NoShift(v);
    }
  }

  lemma NoShift(v: int)
    ensures Shift(v, 0) == v
  {
  }

  /** An unsigned value is written by its digits in base 128, most significant first, with the continuation bit on all
      but the last byte, in the smallest number of bytes. */
  lemma UnsignedText(v: nat, ds: seq<int>)
    requires Digits7(EncodeU(v), ds)
    ensures Terminated(EncodeU(v)) && Num(ds, 128) == v
    ensures forall k: nat :: k >= 1 ==> (|EncodeU(v)| <= k <==> v < Pow2(7 * k))
  {
    hide Num, Pow2, Shift, Chunks, ULen;
    UnsignedTop(v);
    ChunksNumber(v, ULen(v), ds);
    forall k: nat | k >= 1
      ensures ULen(v) <= k <==> v < Pow2(7 * k)
    {
      ULenRange(v, k);
    }
  }

  /** A signed value likewise, in two's complement. */
  lemma SignedText(v: int, ds: seq<int>)
    requires Digits7(EncodeS(v), ds)
    ensures Terminated(EncodeS(v)) && Num(ds, 128) == v + (if v < 0 then Pow2(7 * |ds|) else 0)
    ensures forall k: nat :: k >= 1 ==> (|EncodeS(v)| <= k <==> -Pow2(7 * k - 1) <= v < Pow2(7 * k - 1))
  {
    hide Num, Pow2, Shift, Chunks, SLen;
    SignedTop(v);
    ChunksNumber(v, SLen(v), ds);
    forall k: nat | k >= 1
      ensures SLen(v) <= k <==> -Pow2(7 * k - 1) <= v < Pow2(7 * k - 1)
    {
      SLenRange(v, k);
    }
  }

  // ----- What the decoders read -----

  /** Any string of the format, canonical or not, is read as the 32-bit pattern of the number its digits write. */
  lemma UnsignedMeaning(code: seq<byte>, ip: nat, bs: seq<byte>, ds: seq<int>)
    requires Terminated(bs) && Digits7(bs, ds) && At(code, ip, bs)
    ensures ParseUnsigned(code, ip) == Parsed(U32(Num(ds, 128)), ip + |bs|)
  {
    hide Num, Pow2, Shift, Chunks, At, ParseFrom, U32;
    StringIsChunks(bs, ds, 0);
    U32Identity(0);
    ParseChunks(code, ip, Num(ds, 128), |bs|);
  }

  /** The signed decoder reads the digits in two's complement: bit 6 of the first one is the sign. */
  lemma SignedMeaning(code: seq<byte>, ip: nat, bs: seq<byte>, ds: seq<int>)
    requires Terminated(bs) && Digits7(bs, ds) && At(code, ip, bs)
    ensures ParseSigned(code, ip)
         == Parsed(I32(U32(Num(ds, 128) - (if ds[0] >= 64 then Pow2(7 * |bs|) else 0))), ip + |bs|)
  {
    hide Num, Pow2, Shift, Chunks, At, ParseFrom, U32, I32;
    var k := if ds[0] >= 64 then -1 else 0;
    StringIsChunks(bs, ds, k);
    var v := Num(ds, 128) + k * Pow2(7 * |bs|);
    AtHead(code, ip, bs[0], bs[1..]) by {
      assert bs == [bs[0]] + bs[1..];
    }
    ParseChunks(code, ip, v, |bs|);
    FillPattern();
  }

  /** The decoders run past the block exactly when no byte from the pointer on ends a number. */
  lemma {:induction false} ParseOverruns(code: seq<byte>, ip: nat, x: u32)
    ensures ParseFrom(code, ip, x).Overrun? <==> forall i :: ip <= i < |code| ==> code[i] >= 128
    decreases |code| - ip
  {
    if ip < |code| && code[ip] >= 128 {
      ParseOverruns(code, ip + 1, U32(x * 128) + code[ip] % 128);
    }
  }

  lemma DecodersOverrun(code: seq<byte>, ip: nat)
    ensures ParseUnsigned(code, ip).Overrun? <==> forall i :: ip <= i < |code| ==> code[i] >= 128
    ensures ParseSigned(code, ip).Overrun? <==> forall i :: ip <= i < |code| ==> code[i] >= 128
  {
    hide ParseFrom;
    ParseOverruns(code, ip, 0);
    ParseOverruns(code, ip, M32 - 1);
  }

  datatype Numeral = Unsigned(u: u32) | Signed(s: i32)

  function EncodeNum(n: Numeral): seq<byte> {
    match n case Unsigned(u) => EncodeU(u) case Signed(s) => EncodeS(s)
  }

  function ParseNum(code: seq<byte>, ip: nat, signed: bool): Option<(Numeral, nat)> {
    match if signed then ParseSigned(code, ip) else ParseUnsigned(code, ip)
    case Overrun => None
    case Parsed(v, next) => Some((if signed then Signed(v) else Unsigned(v), next))
  }

  lemma NumRoundTrip(code: seq<byte>, ip: nat, n: Numeral)
    requires At(code, ip, EncodeNum(n))
    ensures ParseNum(code, ip, n.Signed?) == Some((n, ip + |EncodeNum(n)|))
  {
    match n {
      case Unsigned(u) => UnsignedRoundTrip(code, ip, u);
      case Signed(s) => SignedRoundTrip(code, ip, s);
    }
  }

  datatype List<T> = Nil | Cons(head: T, tail: List<T>)

  function EncodeAll(ns: List<Numeral>): seq<byte> {
    match ns case Nil => [] case Cons(n, rest) => EncodeNum(n) + EncodeAll(rest)
  }

  /** Reads one number per entry of `kinds` (true for signed); the numbers and the final pointer. */
  function DecodeAll(code: seq<byte>, ip: nat, kinds: List<bool>): Option<(List<Numeral>, nat)>
    decreases kinds
  {
    match kinds
    case Nil => Some((Nil, ip))
    case Cons(signed, more) =>
      match ParseNum(code, ip, signed)
      case None => None
      case Some((n, next)) =>
        match DecodeAll(code, next, more)
        case None => None
        case Some((ns, end)) => Some((Cons(n, ns), end))
  }

  function Kinds(ns: List<Numeral>): List<bool> {
    match ns case Nil => Nil case Cons(n, rest) => Cons(n.Signed?, Kinds(rest))
  }

  /** Any list of 32-bit numbers, encoded anywhere in a byte string, is read back exactly, and exactly its bytes
      are consumed. */
  lemma {:induction false} ListRoundTrip(code: seq<byte>, ip: nat, ns: List<Numeral>)
    requires At(code, ip, EncodeAll(ns))
    ensures DecodeAll(code, ip, Kinds(ns)) == Some((ns, ip + |EncodeAll(ns)|))
    decreases ns
  {
    hide ParseNum, EncodeNum, At;
    match ns {
      case Nil =>
      case Cons(n, rest) =>
        AtSplit(code, ip, EncodeNum(n), EncodeAll(rest));
        NumRoundTrip(code, ip, n);
        ListRoundTrip(code, ip + |EncodeNum(n)|, rest);
    }
  }

  // ----- Symbolic constants: TPointerExpr and the T0_INTn macros -----

  /** Bits of the shortest signed representation of `v`, sign included. */
  function BitLen(v: int): (n: nat)
    ensures n >= 1
    decreases if v < 0 then -v else v
  {
    if v == 0 || v == -1 then 1 else 1 + BitLen(v / 2)
  }

  method BitLength(v: int) returns (num: int)
    ensures num == BitLen(v)
  {
    num := 1;
    var w := v;
    if v < 0 {
      while w != -1
        invariant w < 0 && num + BitLen(w) == 1 + BitLen(v)
        decreases -w
      {
        num := num + 1;
        w := w / 2;
      }
    } else {
      while w != 0
        invariant 0 <= w && num + BitLen(w) == 1 + BitLen(v)
        decreases w
      {
        num := num + 1;
        w := w / 2;
      }
    }
  }

  /** Bits reserved for an expression declared between `lo` and `hi`. */
  function MaxBits(lo: int, hi: int): int {
    Min(Max(Max(1, if lo < 0 then BitLen(lo) else 1), if hi > 0 then BitLen(hi) else 1), 32)
  }

  method GetMaxBitLength(min: i32, max: i32, off: i32) returns (numBits: int)
    ensures numBits == MaxBits(min + off, max + off)
  {
    var rmin, rmax := min + off, max + off;
    numBits := 1;
    if rmin < 0 {
      var b := BitLength(rmin);
      numBits := Max(numBits, b);
    }
    if rmax > 0 {
      var b := BitLength(rmax);
      numBits := Max(numBits, b);
    }
    numBits := Min(numBits, 32);
  }

  /** Operand width in bytes chosen by CodeElementUIntExpr. */
  function ExprWidth(lo: int, hi: int): (n: nat)
    ensures 1 <= n <= 5
  {
    (MaxBits(lo, hi) + 6) / 7
  }

  function VByte(x: u32, n: nat): byte { Shift(x, n) % 128 + 128 }
  function FByte(x: u32, n: nat): byte { Shift(x, n) % 128 }

  /** T0_SBYTE: adding then xoring 0xF8 to the top four bits, in one unsigned char. */
  function SByte(x: u32): byte {
    var t := (x / 0x1000_0000) as bv16;
    (((t + 0xF8) ^ 0xF8) & 0xFF) as int
  }

  /** The continuation bit is present exactly for patterns with bit 31 set. */
  lemma SByteValue(x: u32)
    ensures SByte(x) == if x < M31 then x / 0x1000_0000 else 0xF0 + x / 0x1000_0000
  {
    var t := x / 0x1000_0000;
    assert t == 0 || t == 1 || t == 2 || t == 3 || t == 4 || t == 5 || t == 6 || t == 7
      || t == 8 || t == 9 || t == 10 || t == 11 || t == 12 || t == 13 || t == 14 || t == 15;
  }

  /** The bytes of T0_INTn(x). */
  function IntN(x: u32, n: nat): (bs: seq<byte>)
    requires 1 <= n <= 5
    ensures |bs| == n
  {
    match n
    case 1 => [FByte(x, 0)]
    case 2 => [VByte(x, 7), FByte(x, 0)]
    case 3 => [VByte(x, 14), VByte(x, 7), FByte(x, 0)]
    case 4 => [VByte(x, 21), VByte(x, 14), VByte(x, 7), FByte(x, 0)]
    case _ => [SByte(x), VByte(x, 21), VByte(x, 14), VByte(x, 7), FByte(x, 0)]
  }

  /** BitLen is exactly the width of the smallest two's complement range that holds the value. */
  lemma {:induction false} BitLenRange(v: int, k: nat)
    requires k >= 1
    ensures BitLen(v) <= k <==> -Pow2(k - 1) <= v < Pow2(k - 1)
    decreases k
  {
    if k > 1 && v != 0 && v != -1 {
      BitLenRange(v / 2, k - 1);
    }
  }

  lemma WidthRange(lo: int, hi: int, v: int, n: nat)
    requires lo <= v <= hi && n == ExprWidth(lo, hi) <= 4
    ensures -Pow2(7 * n - 1) <= v < Pow2(7 * n - 1)
  {
    if lo < 0 { BitLenRange(lo, 7 * n); }
    if hi > 0 { BitLenRange(hi, 7 * n); }
  }

  /** The reserved width, below the cap, is at most k exactly when both ends fit the k-bit two's complement range; the
      operand takes as many bytes as that many bits need at 7 a byte. */
  lemma ReservedWidth(lo: int, hi: int, k: nat)
    requires lo <= hi && 1 <= k < 32
    ensures MaxBits(lo, hi) <= k <==> -Pow2(k - 1) <= lo && hi < Pow2(k - 1)
    ensures 1 <= MaxBits(lo, hi) <= 32 && 7 * (ExprWidth(lo, hi) - 1) < MaxBits(lo, hi) <= 7 * ExprWidth(lo, hi)
  {
    hide BitLen, Pow2;
    BitLenRange(lo, k);
    BitLenRange(hi, k);
    Pow2AtLeast(k - 1);
  }

  lemma PowValues()
    ensures Pow2(6) == 64 && Pow2(13) == 8192 && Pow2(20) == 0x10_0000 && Pow2(27) == 0x800_0000
  {
    assert Pow2(3) == 8;
    assert Pow2(6) == 64;
    assert Pow2(9) == 512;
    assert Pow2(11) == 2048;
    assert Pow2(13) == 8192;
    assert Pow2(17) == 0x2_0000;
    assert Pow2(20) == 0x10_0000;
    assert Pow2(24) == 0x100_0000;
  }

  lemma ShiftValues(v: int)
    ensures Shift(v, 0) == v && Shift(v, 7) == v / 128 && Shift(v, 14) == v / 128 / 128
    ensures Shift(v, 21) == v / 128 / 128 / 128 && Shift(v, 28) == v / 128 / 128 / 128 / 128
    ensures Shift(v, 35) == v / 128 / 128 / 128 / 128 / 128
  {
    ShiftSeven(v, 0);
    ShiftSeven(v, 7);
    ShiftSeven(v, 14);
    ShiftSeven(v, 21);
    ShiftSeven(v, 28);
  }

  /** The four low chunks of a value only depend on its 32-bit pattern. */
  lemma LowChunks(v: int)
    ensures Shift(U32(v), 0) % 128 == Shift(v, 0) % 128
    ensures Shift(U32(v), 7) % 128 == Shift(v, 7) % 128
    ensures Shift(U32(v), 14) % 128 == Shift(v, 14) % 128
    ensures Shift(U32(v), 21) % 128 == Shift(v, 21) % 128
  {
    hide Shift, U32;
    var u := U32(v);
    var k := U32Split(v);
    ShiftValues(v);
    ShiftValues(u);
    DivAdd(u, k * 0x200_0000);
    DivAdd(u / 128, k * 0x4_0000);
    DivAdd(u / 128 / 128, k * 0x800);
    DivAdd(u / 128 / 128 / 128, k * 16);
  }

  /** Up to four bytes, T0_INTn spells the same chunks as the encoder would for the signed value. */
  lemma IntNIsChunks(v: int, n: nat)
    requires 1 <= n <= 4
    ensures IntN(U32(v), n) == Chunks(v, n)
  {
    hide Shift, U32;
    LowChunks(v);
    assert IntN(U32(v), 1) == Chunks(v, 1);
    if n >= 2 { assert Chunks(v, 2) == [VByte(U32(v), 7)] + Chunks(v, 1); }
    if n >= 3 { assert Chunks(v, 3) == [VByte(U32(v), 14)] + Chunks(v, 2); }
    if n >= 4 { assert Chunks(v, 4) == [VByte(U32(v), 21)] + Chunks(v, 3); }
  }

  /** The operand of a symbolic constant is read back as its value when the declared range needs at most 28 bits;
      a five-byte operand is read back, over its five bytes, exactly when bit 31 of the value is set. */
  lemma ExprRoundTrip(code: seq<byte>, ip: nat, lo: int, hi: int, v: int)
    requires lo <= v <= hi
    requires At(code, ip, IntN(U32(v), ExprWidth(lo, hi)))
    ensures MaxBits(lo, hi) <= 28 ==> ParseSigned(code, ip) == Parsed(v, ip + ExprWidth(lo, hi))
    ensures MaxBits(lo, hi) > 28 ==>
              (ParseSigned(code, ip) == Parsed(I32(U32(v)), ip + ExprWidth(lo, hi)) <==> U32(v) >= M31)
  {
    var n := ExprWidth(lo, hi);
    if n <= 4 {
      WidthRange(lo, hi, v, n);
      ShortOperand(code, ip, v, n);
    } else {
      LongOperand(code, ip, U32(v));
    }
  }

  lemma ShortOperand(code: seq<byte>, ip: nat, v: int, n: nat)
    requires 1 <= n <= 4 && -Pow2(7 * n - 1) <= v < Pow2(7 * n - 1)
    requires At(code, ip, IntN(U32(v), n))
    ensures ParseSigned(code, ip) == Parsed(v, ip + n)
  {
    hide ParseSigned, Chunks, Shift, At, U32, I32, IntN, Pow2;
    IntNIsChunks(v, n);
    PowValues();
    ShiftValues(v);
    I32Identity(v);
    ParseSignedChunks(code, ip, v, n);
  }

  lemma LongOperand(code: seq<byte>, ip: nat, x: u32)
    requires At(code, ip, IntN(x, 5))
    ensures ParseSigned(code, ip) == Parsed(I32(x), ip + 5) <==> x >= M31
  {
    hide ParseSigned, At, IntN, I32;
    if x >= M31 {
      LongNegative(code, ip, x);
    } else {
      LongPositive(code, ip, x);
    }
  }

  lemma LongNegative(code: seq<byte>, ip: nat, x: u32)
    requires At(code, ip, IntN(x, 5)) && x >= M31
    ensures ParseSigned(code, ip) == Parsed(I32(x), ip + 5)
  {
    hide ParseSigned, At, Shift, SByte, IntN, Chunks, U32, I32;
    NegativeIntN(x);
    ShiftValues(x - M32);
    U32Wrap(x);
    ParseSignedChunks(code, ip, x - M32, 5);
  }

  /** Without the continuation bit the first byte already ends the number. */
  lemma LongPositive(code: seq<byte>, ip: nat, x: u32)
    requires At(code, ip, IntN(x, 5)) && x < M31
    ensures ParseSigned(code, ip).Overrun? || ParseSigned(code, ip).next == ip + 1
  {
    SByteValue(x);
    hide Shift, U32, I32, SByte, At;
    AtHead(code, ip, SByte(x), IntN(x, 5)[1..]) by {
      assert IntN(x, 5) == [SByte(x)] + IntN(x, 5)[1..];
    }
  }

  lemma U32Wrap(x: u32)
    ensures U32(x - M32) == x
  {
  }

  lemma NegativeIntN(x: u32)
    requires x >= M31
    ensures IntN(x, 5) == Chunks(x - M32, 5)
  {
    hide SByte, Shift, U32;
    var k := x - M32;
    SByteValue(x);
    ShiftValues(k);
    U32Wrap(x);
    IntNIsChunks(k, 4);
    assert k / 128 / 128 / 128 / 128 == x / 0x1000_0000 - 16;
    assert Shift(k, 28) % 128 + 128 == SByte(x);
    assert Chunks(k, 5) == [SByte(x)] + Chunks(k, 4);
  }
}
