/** Code elements and the layout loop of T0Comp.Generate: element lengths depend on jump distances, which depend on
    element lengths; the loop repeats until the total length is stable. */
module Layout {
  import opened Machine32
  import opened SevenE

  /** A code element: a slot number or count, with an operand or not, or a jump to another element (by index). */
  datatype Elem =
    | UInt(v: u32)
    | UIntInt(v: u32, i: i32)
    | UIntUInt(v: u32, u: u32)
    | UIntExpr(v: u32, lo: int, hi: int, val: u32)
    | Jump(v: u32, target: nat)

  ghost predicate Targets(g: seq<Elem>) {
    forall i :: 0 <= i < |g| && g[i].Jump? ==> g[i].target < |g|
  }

  /** Start address of element `i`: the sum of the lengths before it. */
  function Addr(lens: seq<nat>, i: nat): nat
    requires i <= |lens|
  {
    if i == 0 then 0 else Addr(lens, i - 1) + lens[i - 1]
  }

  /** Byte distance of a jump, measured from the end of the jump element (JumpOff). */
  function JumpOff(lens: seq<nat>, i: nat, target: nat): int
    requires i < |lens| && target < |lens|
  {
    Addr(lens, target) - (Addr(lens, i) + lens[i])
  }

  function OpLen(oneByte: bool, v: u32): nat { if oneByte then 1 else ULen(v) }

  /** Length of element `i` when the current addresses come from `lens` (GetLength). */
  function ElemLen(g: seq<Elem>, oneByte: bool, lens: seq<nat>, i: nat): nat
    requires Targets(g) && |lens| == |g| && i < |g|
  {
    OpLen(oneByte, g[i].v) +
    match g[i]
    case UInt(_) => 0
    case UIntInt(_, x) => SLen(x)
    case UIntUInt(_, x) => ULen(x)
    case UIntExpr(_, lo, hi, _) => ExprWidth(lo, hi)
    case Jump(_, t) => SLen(JumpOff(lens, i, t))
  }

  /** Length of element `i` before any address is known. */
  function FirstLen(g: seq<Elem>, oneByte: bool, i: nat): nat
    requires i < |g|
  {
    OpLen(oneByte, g[i].v) +
    match g[i]
    case UInt(_) => 0
    case UIntInt(_, x) => SLen(x)
    case UIntUInt(_, x) => ULen(x)
    case UIntExpr(_, lo, hi, _) => ExprWidth(lo, hi)
    case Jump(_, _) => 1
  }

  /** An assignment of lengths that agrees with the addresses it induces. */
  ghost predicate Consistent(g: seq<Elem>, oneByte: bool, lens: seq<nat>) {
    && Targets(g) && |lens| == |g|
    && forall i :: 0 <= i < |g| ==> lens[i] == ElemLen(g, oneByte, lens, i)
  }

  ghost predicate Below(a: seq<nat>, b: seq<nat>) {
    |a| == |b| && forall i :: 0 <= i < |a| ==> a[i] <= b[i]
  }

  // ----- Monotonicity -----

  lemma {:induction false} AddrGap(a: seq<nat>, b: seq<nat>, i: nat, j: nat)
    requires Below(a, b) && i <= j <= |a|
    ensures 0 <= Addr(a, j) - Addr(a, i) <= Addr(b, j) - Addr(b, i)
    decreases j
  {
    if i < j {
      AddrGap(a, b, i, j - 1);
    }
  }

  lemma {:induction false} SLenMonotone(x: int, y: int)
    requires 0 <= x <= y || y <= x < 0
    ensures SLen(x) <= SLen(y)
    decreases if y < 0 then -y else y
  {
    if !(-64 <= y < 64) {
      if !(-64 <= x < 64) {
        SLenMonotone(x / 128, y / 128);
      }
    }
  }

  /** Forward and backward jump distances both grow with the lengths, so the next lengths do too. */
  lemma ElemLenMonotone(g: seq<Elem>, oneByte: bool, a: seq<nat>, b: seq<nat>, i: nat)
    requires Targets(g) && |a| == |g| && Below(a, b) && i < |g|
    requires forall k :: 0 <= k < |a| ==> a[k] >= 1
    ensures ElemLen(g, oneByte, a, i) <= ElemLen(g, oneByte, b, i)
  {
    if g[i].Jump? {
      var t := g[i].target;
      if t > i {
        AddrGap(a, b, i + 1, t);
      } else {
        AddrGap(a, b, t, i + 1);
        AddrGap(a, b, t, i);
      }
      SLenMonotone(JumpOff(a, i, t), JumpOff(b, i, t));
    }
  }

  lemma FirstLenLeast(g: seq<Elem>, oneByte: bool, lens: seq<nat>, i: nat)
    requires Targets(g) && |lens| == |g| && i < |g|
    ensures 1 <= FirstLen(g, oneByte, i) <= ElemLen(g, oneByte, lens, i)
  {
  }

  /** Pointwise order with equal totals is equality: comparing totals is enough to detect the fixpoint. */
  lemma EqualTotals(a: seq<nat>, b: seq<nat>)
    requires Below(a, b) && Addr(a, |a|) == Addr(b, |b|)
    ensures a == b
  {
    forall i | 0 <= i < |a|
      ensures a[i] == b[i]
    {
      AddrGap(a, b, 0, i);
      AddrGap(a, b, i + 1, |a|);
    }
  }

  // ----- Rounds of the loop -----

  /** Lengths computed in round `k`: the first round knows no address, each later one uses the addresses of the one
      before. */
  function Round(g: seq<Elem>, oneByte: bool, k: nat): (lens: seq<nat>)
    requires Targets(g)
    ensures |lens| == |g|
    decreases k
  {
    if k == 0 then seq(|g|, i requires 0 <= i < |g| => FirstLen(g, oneByte, i))
    else
      var last := Round(g, oneByte, k - 1);
      seq(|g|, i requires 0 <= i < |g| => ElemLen(g, oneByte, last, i))
  }

  lemma {:induction false} RoundsPositive(g: seq<Elem>, oneByte: bool, k: nat)
    requires Targets(g)
    ensures forall i :: 0 <= i < |g| ==> Round(g, oneByte, k)[i] >= 1
  {
    if k > 0 {
      forall i | 0 <= i < |g|
        ensures Round(g, oneByte, k)[i] >= 1
      {
        FirstLenLeast(g, oneByte, Round(g, oneByte, k - 1), i);
      }
    }
  }

  /** No element ever shrinks from one round to the next. */
  lemma {:induction false} RoundsGrow(g: seq<Elem>, oneByte: bool, k: nat)
    requires Targets(g)
    ensures Below(Round(g, oneByte, k), Round(g, oneByte, k + 1))
    decreases k
  {
    hide ElemLen, FirstLen;
    forall i | 0 <= i < |g|
      ensures Round(g, oneByte, k)[i] <= Round(g, oneByte, k + 1)[i]
    {
      if k == 0 {
        FirstLenLeast(g, oneByte, Round(g, oneByte, 0), i);
      } else {
        RoundsGrow(g, oneByte, k - 1);
        RoundsPositive(g, oneByte, k - 1);
        ElemLenMonotone(g, oneByte, Round(g, oneByte, k - 1), Round(g, oneByte, k), i);
      }
    }
  }

  /** Every round stays below every consistent assignment, so the layout reached is the smallest one. */
  lemma {:induction false} RoundsLeast(g: seq<Elem>, oneByte: bool, k: nat, other: seq<nat>)
    requires Consistent(g, oneByte, other)
    ensures Below(Round(g, oneByte, k), other)
    decreases k
  {
    hide ElemLen, FirstLen;
    forall i | 0 <= i < |g|
      ensures Round(g, oneByte, k)[i] <= other[i]
    {
      if k == 0 {
        FirstLenLeast(g, oneByte, other, i);
      } else {
        RoundsLeast(g, oneByte, k - 1, other);
        RoundsPositive(g, oneByte, k - 1);
        ElemLenMonotone(g, oneByte, Round(g, oneByte, k - 1), other, i);
      }
    }
  }

  // ----- Lengths are bounded -----

  /** Values below `Reach(m)` in magnitude need at most `m` chunks. */
  function Span(m: nat): (r: int)
    requires m >= 1
    ensures r >= 64
  {
    if m == 1 then 64 else 128 * Span(m - 1)
  }

  lemma {:induction false} SLenBound(x: int, m: nat)
    requires m >= 1 && -Span(m) <= x < Span(m)
    ensures SLen(x) <= m
    decreases m
  {
    if m > 1 && !(-64 <= x < 64) {
      SLenBound(x / 128, m - 1);
    }
  }

  lemma {:induction false} SpanBeatsSquare(n: nat)
    ensures n * (n + 10) < Span(n + 5)
  {
    if n > 0 {
      SpanBeatsSquare(n - 1);
      assert (n - 1) * (n + 9) == n * (n + 10) - 2 * n - 9;
    }
  }

  lemma ShortOperands(v: u32, i: i32)
    ensures ULen(v) <= 5 && SLen(i) <= 5
  {
    assert Span(3) == 0x10_0000;
    assert Span(5) == 0x4_0000_0000;
    SLenBound(i, 5);
    var a := v / 128; var b := a / 128; var c := b / 128;
    assert ULen(v) <= 2 + ULen(b) <= 3 + ULen(c);
    assert c / 128 < 128;
  }

  lemma {:induction false} AddrBound(lens: seq<nat>, i: nat, b: nat)
    requires i <= |lens| && forall k :: 0 <= k < |lens| ==> lens[k] <= b
    ensures Addr(lens, i) <= i * b
  {
    if i > 0 {
      AddrBound(lens, i - 1, b);
      assert i * b == (i - 1) * b + b;
    }
  }

  /** No element of a program of `n` elements ever grows past `n + 10` bytes. */
  lemma {:induction false} RoundsBounded(g: seq<Elem>, oneByte: bool, k: nat)
    requires Targets(g)
    ensures forall i :: 0 <= i < |g| ==> Round(g, oneByte, k)[i] <= |g| + 10
    decreases k
  {
    forall i | 0 <= i < |g|
      ensures Round(g, oneByte, k)[i] <= |g| + 10
    {
      var small := Round(g, oneByte, k)[i];
      ShortOperands(g[i].v, 0);
      match g[i] {
        case UInt(_) =>
        case UIntInt(_, x) => ShortOperands(0, x);
        case UIntUInt(_, x) => ShortOperands(x, 0);
        case UIntExpr(_, _, _, _) =>
        case Jump(_, t) =>
          if k > 0 {
            RoundsBounded(g, oneByte, k - 1);
            OffsetBound(g, Round(g, oneByte, k - 1), i, t);
          }
      }
    }
  }

  lemma OffsetBound(g: seq<Elem>, lens: seq<nat>, i: nat, t: nat)
    requires |lens| == |g| && i < |g| && t < |g|
    requires forall k :: 0 <= k < |lens| ==> lens[k] <= |g| + 10
    ensures SLen(JumpOff(lens, i, t)) <= |g| + 5
  {
    var n := |g|;
    AddrBound(lens, n, n + 10);
    AddrGap(lens, lens, i + 1, n);
    AddrGap(lens, lens, t, n);
    SpanBeatsSquare(n);
    SLenBound(JumpOff(lens, i, t), n + 5);
  }

  // ----- The loop -----

  /** The code elements of a program with their mutable Address and LastLength fields. */
  class CodeBlock {
    const gcode: seq<Elem>
    const oneByte: bool
    const address: array<int>
    const lastLength: array<int>

    ghost predicate Shape() {
      address != lastLength && address.Length == |gcode| && lastLength.Length == |gcode| && Targets(gcode)
    }

    /** Addresses and lengths are those of `lens`. */
    ghost predicate Placed(lens: seq<nat>)
      reads address, lastLength
    {
      && Shape() && |lens| == |gcode|
      && (forall i :: 0 <= i < |gcode| ==> address[i] == Addr(lens, i))
      && (forall i :: 0 <= i < |gcode| ==> lastLength[i] == lens[i])
    }

    /** State at the start of round `k`. */
    ghost predicate Before(k: nat)
      reads address, lastLength
    {
      Shape() && if k == 0 then forall i :: 0 <= i < |gcode| ==> address[i] == -1
                 else Placed(Round(gcode, oneByte, k - 1))
    }

    constructor (gcode: seq<Elem>, oneByte: bool)
      requires Targets(gcode)
      ensures this.gcode == gcode && this.oneByte == oneByte && fresh(address) && fresh(lastLength)
      ensures Before(0)
    {
      this.gcode := gcode;
      this.oneByte := oneByte;
      this.address := new int[|gcode|](_ => -1);
      this.lastLength := new int[|gcode|](_ => 0);
    }

    method GetLength(i: nat, ghost k: nat) returns (len: nat)
      requires Before(k) && i < |gcode|
      ensures len == Round(gcode, oneByte, k)[i]
      ensures gcode[i].Jump? ==>
                var t := gcode[i].target;
                len == (if oneByte then 1 else ULen(gcode[i].v))
                       + if address[i] < 0 || address[t] < 0 then 1
                         else SLen(address[t] - (address[i] + lastLength[i]))
    {
      var e := gcode[i];
      if oneByte {
        len := 1;
      } else {
        len := Encode7EUnsigned(e.v, null);
      }
      match e {
        case UInt(_) =>
        case UIntInt(_, x) =>
          var n := Encode7ESigned(x, null);
          len := len + n;
        case UIntUInt(_, x) =>
          var n := Encode7EUnsigned(x, null);
          len := len + n;
        case UIntExpr(_, lo, hi, _) =>
          len := len + ExprWidth(lo, hi);
        case Jump(_, t) =>
          if address[i] < 0 || address[t] < 0 {
            len := len + 1;
          } else {
            var n := Encode7ESigned(address[t] - (address[i] + lastLength[i]), null);
            len := len + n;
          }
      }
    }

    /** First inner loop: every length, from the addresses of the previous round. */
    method Measure(gcodeLen: array<int>, ghost k: nat)
      requires Before(k) && gcodeLen.Length == |gcode| && gcodeLen != address && gcodeLen != lastLength
      modifies gcodeLen
      ensures forall j :: 0 <= j < |gcode| ==> gcodeLen[j] == Round(gcode, oneByte, k)[j]
    {
      for i := 0 to |gcode|
        invariant Before(k)
        invariant forall j :: 0 <= j < i ==> gcodeLen[j] == Round(gcode, oneByte, k)[j]
      {
        gcodeLen[i] := GetLength(i, k);
      }
    }

    /** Second inner loop: new addresses and lengths, and their total. */
    method Place(gcodeLen: array<int>, ghost lens: seq<nat>) returns (off: nat)
      requires Shape() && gcodeLen.Length == |lens| == |gcode| && gcodeLen != address && gcodeLen != lastLength
      requires forall j :: 0 <= j < |lens| ==> gcodeLen[j] == lens[j]
      modifies address, lastLength
      ensures Placed(lens) && off == Addr(lens, |lens|)
    {
      off := 0;
      for i := 0 to |gcode|
        invariant forall j :: 0 <= j < |lens| ==> gcodeLen[j] == lens[j]
        invariant off == Addr(lens, i)
        invariant forall j :: 0 <= j < i ==> address[j] == Addr(lens, j)
        invariant forall j :: 0 <= j < i ==> lastLength[j] == lens[j]
      {
        address[i] := off;
        lastLength[i] := gcodeLen[i];
        off := off + gcodeLen[i];
      }
    }

    /** The layout loop ends for every program, on a consistent assignment of lengths, which is the smallest one. */
    method Layout() returns (totalLen: int, ghost lens: seq<nat>)
      requires Before(0)
      modifies address, lastLength
      ensures Placed(lens) && totalLen == Addr(lens, |lens|)
      ensures Consistent(gcode, oneByte, lens)
      ensures forall other :: Consistent(gcode, oneByte, other) ==> Below(lens, other)
    {
      totalLen := -1;
      var gcodeLen := new int[|gcode|];
      ghost var k := 0;
      while true
        invariant Before(k)
        invariant totalLen == if k == 0 then -1 else Total(gcode, oneByte, k - 1)
        decreases MaxTotal(gcode) - totalLen
      {
        Measure(gcodeLen, k);
        lens := Round(gcode, oneByte, k);
        var off := Place(gcodeLen, lens);
        RoundProgress(gcode, oneByte, k);
        if off == totalLen {
          break;
        }
        totalLen := off;
        k := k + 1;
      }
      forall other | Consistent(gcode, oneByte, other)
        ensures Below(lens, other)
      {
        RoundsLeast(gcode, oneByte, k, other);
      }
    }

    /** Writes one element; fails when an opcode or count does not fit the one-byte form. */
    method Encode(i: nat, bw: Blob, ghost lens: seq<nat>) returns (ok: bool)
      requires Placed(lens) && i < |gcode|
      modifies bw
      ensures ok <==> (oneByte ==> gcode[i].v <= 255)
      ensures ok ==> bw.data == old(bw.data) + (OpBytes(oneByte, gcode[i].v) + OperandBytes(gcode, lens, i))
    {
      hide OperandBytes, Addr, Chunks;
      if oneByte {
        if gcode[i].v > 255 {
          return false;
        }
        bw.Append(gcode[i].v);
      } else {
        var _ := Encode7EUnsigned(gcode[i].v, bw);
      }
      EncodeOperand(i, bw, lens);
      return true;
    }

    method EncodeOperand(i: nat, bw: Blob, ghost lens: seq<nat>)
      requires Placed(lens) && i < |gcode|
      modifies bw
      ensures bw.data == old(bw.data) + OperandBytes(gcode, lens, i)
    {
      match gcode[i] {
        case UInt(_) =>
        case UIntInt(_, x) =>
          var _ := Encode7ESigned(x, bw);
        case UIntUInt(_, x) =>
          var _ := Encode7EUnsigned(x, bw);
        case UIntExpr(_, lo, hi, x) =>
          AppendExpr(bw, IntN(x, ExprWidth(lo, hi)));
        case Jump(_, t) =>
          var _ := Encode7ESigned(address[t] - (address[i] + lastLength[i]), bw);
      }
    }

    /** BlobWriter.Append of a C expression, seen as the bytes it stands for. */
    method AppendExpr(bw: Blob, bs: seq<byte>)
      modifies bw
      ensures bw.data == old(bw.data) + bs
    {
      bw.data := bw.data + bs;
    }

    /** Emission of the whole code block. */
    method EncodeAll(bw: Blob, ghost lens: seq<nat>) returns (ok: bool)
      requires Placed(lens) && bw.data == []
      modifies bw
      ensures ok <==> Encodable(gcode, oneByte)
      ensures ok ==> bw.data == Emitted(gcode, oneByte, lens, |gcode|)
    {
      hide OpBytes, OperandBytes, ElemBytes, Emitted, Addr;
      NothingEmitted(gcode, oneByte, lens);
      for i := 0 to |gcode|
        invariant forall j :: 0 <= j < i ==> oneByte ==> gcode[j].v <= 255
        invariant Encodable(gcode, oneByte) ==> bw.data == Emitted(gcode, oneByte, lens, i)
      {
        ok := Encode(i, bw, lens);
        if !ok {
          return;
        }
        NextEmitted(gcode, oneByte, lens, i);
      }
      ok := true;
    }
  }

  function Total(g: seq<Elem>, oneByte: bool, k: nat): nat
    requires Targets(g)
  {
    Addr(Round(g, oneByte, k), |g|)
  }

  function MaxTotal(g: seq<Elem>): nat { |g| * (|g| + 10) }

  lemma AddrStart(lens: seq<nat>)
    ensures Addr(lens, 0) == 0
  {
  }

  /** A round that changes nothing is self-consistent. */
  lemma SameRound(g: seq<Elem>, oneByte: bool, k: nat)
    requires Targets(g) && k > 0 && Round(g, oneByte, k - 1) == Round(g, oneByte, k)
    ensures Consistent(g, oneByte, Round(g, oneByte, k))
  {
    hide ElemLen;
  }

  /** Totals never decrease and are bounded; when a round keeps the total it has reached a consistent assignment. */
  lemma RoundProgress(g: seq<Elem>, oneByte: bool, k: nat)
    requires Targets(g)
    ensures Total(g, oneByte, k) <= MaxTotal(g)
    ensures k > 0 ==> Total(g, oneByte, k - 1) <= Total(g, oneByte, k)
    ensures k > 0 && Total(g, oneByte, k - 1) == Total(g, oneByte, k) ==> Consistent(g, oneByte, Round(g, oneByte, k))
  {
    hide Round, Addr, Below, Consistent;
    var lens := Round(g, oneByte, k);
    RoundsBounded(g, oneByte, k);
    AddrBound(lens, |g|, |g| + 10);
    if k > 0 {
      var last := Round(g, oneByte, k - 1);
      RoundsGrow(g, oneByte, k - 1);
      AddrGap(last, lens, 0, |g|);
      AddrStart(last);
      AddrStart(lens);
      if Total(g, oneByte, k - 1) == Total(g, oneByte, k) {
        EqualTotals(last, lens);
        SameRound(g, oneByte, k);
      }
    }
  }

  // ----- Emission -----

  ghost predicate Encodable(g: seq<Elem>, oneByte: bool) {
    oneByte ==> forall i :: 0 <= i < |g| ==> g[i].v <= 255
  }

  function OpBytes(oneByte: bool, v: u32): seq<byte>
    requires oneByte ==> v <= 255
  {
    if oneByte then [v] else EncodeU(v)
  }

  /** The bytes of element `i`. */
  function ElemBytes(g: seq<Elem>, oneByte: bool, lens: seq<nat>, i: nat): (bs: seq<byte>)
    requires Targets(g) && Encodable(g, oneByte) && |lens| == |g| && i < |g|
    ensures |bs| == ElemLen(g, oneByte, lens, i)
  {
    OpBytes(oneByte, g[i].v) + OperandBytes(g, lens, i)
  }

  function OperandBytes(g: seq<Elem>, lens: seq<nat>, i: nat): seq<byte>
    requires Targets(g) && |lens| == |g| && i < |g|
  {
    match g[i]
    case UInt(_) => []
    case UIntInt(_, x) => EncodeS(x)
    case UIntUInt(_, x) => EncodeU(x)
    case UIntExpr(_, lo, hi, x) => IntN(x, ExprWidth(lo, hi))
    case Jump(_, t) => EncodeS(JumpOff(lens, i, t))
  }

  /** The bytes of the first `n` elements. */
  function Emitted(g: seq<Elem>, oneByte: bool, lens: seq<nat>, n: nat): seq<byte>
    requires Targets(g) && Encodable(g, oneByte) && |lens| == |g| && n <= |g|
  {
    if n == 0 then [] else Emitted(g, oneByte, lens, n - 1) + ElemBytes(g, oneByte, lens, n - 1)
  }

  lemma NothingEmitted(g: seq<Elem>, oneByte: bool, lens: seq<nat>)
    requires Targets(g) && |lens| == |g|
    ensures Encodable(g, oneByte) ==> Emitted(g, oneByte, lens, 0) == []
  {
  }

  lemma NextEmitted(g: seq<Elem>, oneByte: bool, lens: seq<nat>, i: nat)
    requires Targets(g) && |lens| == |g| && i < |g|
    ensures Encodable(g, oneByte) ==>
              Emitted(g, oneByte, lens, i + 1)
              == Emitted(g, oneByte, lens, i) + (OpBytes(oneByte, g[i].v) + OperandBytes(g, lens, i))
  {
    hide OpBytes, OperandBytes;
  }

  /** With a consistent layout every element's bytes start exactly at its address and fill exactly its length. */
  lemma {:induction false} EmittedAt(g: seq<Elem>, oneByte: bool, lens: seq<nat>, n: nat, i: nat)
    requires Consistent(g, oneByte, lens) && Encodable(g, oneByte) && i < n <= |g|
    ensures |Emitted(g, oneByte, lens, n)| == Addr(lens, n)
    ensures At(Emitted(g, oneByte, lens, n), Addr(lens, i), ElemBytes(g, oneByte, lens, i))
  {
    hide At, ElemBytes, ElemLen;
    var front, last := Emitted(g, oneByte, lens, n - 1), ElemBytes(g, oneByte, lens, n - 1);
    EmittedLength(g, oneByte, lens, n - 1);
    EmittedLength(g, oneByte, lens, n);
    if i < n - 1 {
      EmittedAt(g, oneByte, lens, n - 1, i);
      AtAppend(front, last, Addr(lens, i), ElemBytes(g, oneByte, lens, i));
    } else {
      AtEnd(front, last);
    }
  }

  lemma {:induction false} EmittedLength(g: seq<Elem>, oneByte: bool, lens: seq<nat>, n: nat)
    requires Consistent(g, oneByte, lens) && Encodable(g, oneByte) && n <= |g|
    ensures |Emitted(g, oneByte, lens, n)| == Addr(lens, n)
  {
    hide ElemBytes, ElemLen;
    if n > 0 {
      EmittedLength(g, oneByte, lens, n - 1);
    }
  }

  /** A jump placed by a consistent layout lands on the first byte of its target: the decoded offset,
      added to the address of the following element, is the address of the target. */
  lemma JumpLands(g: seq<Elem>, oneByte: bool, lens: seq<nat>, i: nat)
    requires Consistent(g, oneByte, lens) && Encodable(g, oneByte) && i < |g| && g[i].Jump?
    requires Addr(lens, |g|) < M31
    ensures ParseSigned(Emitted(g, oneByte, lens, |g|), Addr(lens, i) + OpLen(oneByte, g[i].v))
         == Parsed(JumpOff(lens, i, g[i].target), Addr(lens, i + 1))
    ensures Addr(lens, i + 1) + JumpOff(lens, i, g[i].target) == Addr(lens, g[i].target)
  {
    hide At, Emitted, ParseSigned, EncodeS, Chunks;
    var code := Emitted(g, oneByte, lens, |g|);
    var t := g[i].target;
    var off := JumpOff(lens, i, t);
    EmittedAt(g, oneByte, lens, |g|, i);
    AtSplit(code, Addr(lens, i), OpBytes(oneByte, g[i].v), EncodeS(off));
    AddrGap(lens, lens, 0, t);
    AddrGap(lens, lens, t, |g|);
    AddrGap(lens, lens, 0, i + 1);
    AddrGap(lens, lens, i + 1, |g|);
    SignedRoundTrip(code, Addr(lens, i) + OpLen(oneByte, g[i].v), off);
  }

  // ----- Reading an element back -----

  /** T0_NEXT: the next opcode or slot number. */
  function ParseOp(code: seq<byte>, oneByte: bool, ip: nat): Parsed {
    if oneByte then if ip < |code| then Parsed(code[ip], ip + 1) else Overrun
    else ParseUnsigned(code, ip)
  }

  /** At the address of element `e` the run loop reads `v`, then finds `operand`, which ends where element `e + 1`
      starts. */
  ghost predicate Stands(code: seq<byte>, oneByte: bool, lens: seq<nat>, e: nat, v: u32, operand: seq<byte>) {
    && e < |lens|
    && ParseOp(code, oneByte, Addr(lens, e)) == Parsed(v, Addr(lens, e) + OpLen(oneByte, v))
    && At(code, Addr(lens, e) + OpLen(oneByte, v), operand)
    && Addr(lens, e + 1) == Addr(lens, e) + OpLen(oneByte, v) + |operand|
    && Addr(lens, e) < |code|
  }

  lemma OpcodeAt(code: seq<byte>, oneByte: bool, ip: nat, v: u32, operand: seq<byte>)
    requires oneByte ==> v <= 255
    requires At(code, ip, OpBytes(oneByte, v) + operand)
    ensures ParseOp(code, oneByte, ip) == Parsed(v, ip + OpLen(oneByte, v))
    ensures At(code, ip + OpLen(oneByte, v), operand) && ip < |code|
  {
    AtSplit(code, ip, OpBytes(oneByte, v), operand);
    if oneByte {
      AtHead(code, ip, v, []);
    } else {
      UnsignedRoundTrip(code, ip, v);
    }
  }

  lemma ElementStands(g: seq<Elem>, oneByte: bool, lens: seq<nat>, e: nat)
    requires Consistent(g, oneByte, lens) && Encodable(g, oneByte) && e < |g|
    ensures Stands(Emitted(g, oneByte, lens, |g|), oneByte, lens, e, g[e].v, OperandBytes(g, lens, e))
  {
    hide At, Emitted, ParseOp, ParseUnsigned, EncodeU, OperandBytes;
    EmittedAt(g, oneByte, lens, |g|, e);
    OpcodeAt(Emitted(g, oneByte, lens, |g|), oneByte, Addr(lens, e), g[e].v, OperandBytes(g, lens, e));
  }
}
