/** Fixed-width integers of the C and C# sources, and the shifts they apply to them.
    Bit operations are written arithmetically: `& 0x7F` is `% 128`, `<< 7` is `* 128`
    reduced to the width, and `|` of disjoint bit fields is `+`. */
module Machine32 {
  const M31: int := 0x8000_0000
  const M32: int := 0x1_0000_0000

  type byte = x: int | 0 <= x < 256
  type u32 = x: int | 0 <= x < 0x1_0000_0000
  type i32 = x: int | -0x8000_0000 <= x < 0x8000_0000

  datatype Option<+T> = None | Some(value: T)

  function Min(a: int, b: int): int { if a < b then a else b }
  function Max(a: int, b: int): int { if a < b then b else a }

  /** The four bytes of a 32-bit value, most significant first. */
  function StoreBe32(v: u32): (p: seq<byte>)
    ensures |p| == 4
  {
    [v / 0x100_0000, v / 0x1_0000 % 256, v / 256 % 256, v % 256]
  }

  /** The 32-bit pattern of an integer (a C or C# unchecked cast to an unsigned 32-bit type). */
  function U32(x: int): u32 { x % M32 }

  /** The signed reading of a 32-bit pattern (an unchecked cast to a signed 32-bit type). */
  function I32(x: u32): int { if x < M31 then x else x - M32 }

  lemma U32Identity(x: u32)
    ensures U32(x) == x
  {
  }

  lemma I32Identity(x: i32)
    ensures I32(U32(x)) == x
  {
  }

  lemma U32Unique(x: int, r: u32, k: int)
    requires x == r + M32 * k
    ensures U32(x) == r
  {
  }

  lemma U32Split(x: int) returns (k: int)
    ensures x == U32(x) + M32 * k
  {
    k := x / M32;
  }

  lemma DivAdd(a: int, c: int)
    ensures (a + 128 * c) / 128 == a / 128 + c && (a + 128 * c) % 128 == a % 128
  {
  }

  /** Arithmetic shift right by `k` bits: the floor of `v / 2^k`. */
  function Shift(v: int, k: nat): int
    decreases k
  {
    if k == 0 then v else Shift(v / 2, k - 1)
  }

  /** Shifting by 7 more bits divides the shifted value by 128. */
  lemma {:induction false} ShiftSeven(v: int, k: nat)
    ensures Shift(v, k + 7) == Shift(v, k) / 128
    decreases k
  {
    if k == 0 {
      ShiftFront(v, 0);
    } else {
      ShiftSeven(v / 2, k - 1);
    }
  }

  /** The same division, taken out at the front. */
  lemma {:induction false} ShiftFront(v: int, k: nat)
    ensures Shift(v, k + 7) == Shift(v / 128, k)
  {
    var a := v / 2; var b := a / 2; var c := b / 2; var d := c / 2; var e := d / 2; var f := e / 2;
    assert Shift(v, k + 7) == Shift(a, k + 6) == Shift(b, k + 5) == Shift(c, k + 4);
    assert Shift(c, k + 4) == Shift(d, k + 3) == Shift(e, k + 2) == Shift(f, k + 1) == Shift(f / 2, k);
    assert f / 2 == v / 128;
  }

  /** memcpy of a whole value into a buffer. */
  method CopyInto(s: seq<byte>, a: array<byte>, start: nat)
    requires start + |s| <= a.Length
    modifies a
    ensures a[..] == old(a[..start]) + s + old(a[start + |s|..])
    ensures a[..start + |s|] == old(a[..start]) + s && a[start + |s|..] == old(a[start + |s|..])
  {
    forall k | 0 <= k < |s| {
      a[start + k] := s[k];
    }
  }
}
