/** Digit strings read as numbers: the notion of positional notation that the codecs are stated against. */
module Digits {
  import opened Machine32

  /** The big-endian number written by the digits `s` in a base. */
  function Num(s: seq<int>, base: int): int {
    if s == [] then 0 else Num(s[..|s| - 1], base) * base + s[|s| - 1]
  }

  lemma NumEmpty(base: int)
    ensures Num([], base) == 0
  {
  }

  lemma NumSnoc(a: seq<int>, x: int, base: int)
    ensures Num(a + [x], base) == Num(a, base) * base + x
  {
    assert (a + [x])[..|a|] == a;
  }

  lemma NumTwo(a: seq<int>, x: int, y: int, base: int)
    ensures Num(a + [x, y], base) == (Num(a, base) * base + x) * base + y
  {
    NumSnoc(a, x, base);
    NumSnoc(a + [x], y, base);
    assert a + [x] + [y] == a + [x, y];
  }

  lemma FourDigits(a: int, b: int, c: int, d: int, base: int)
    ensures Num([a, b, c, d], base) == ((a * base + b) * base + c) * base + d
  {
    hide Num;
    NumEmpty(base);
    assert [a, b, c, d] == [] + [a, b] + [c, d];
    NumTwo([], a, b, base);
    NumTwo([] + [a, b], c, d, base);
  }

  /** Equal numbers written with equally many digits are written with the same digits. */
  lemma {:induction false} NumInjective(a: seq<int>, b: seq<int>, base: int)
    requires |a| == |b| && Num(a, base) == Num(b, base)
    requires forall i :: 0 <= i < |a| ==> 0 <= a[i] < base && 0 <= b[i] < base
    ensures a == b
    decreases |a|
  {
    if a != [] {
      var k := |a| - 1;
      LastDigit(Num(a[..k], base), a[k], Num(b[..k], base), b[k], base);
      NumInjective(a[..k], b[..k], base);
      assert a == a[..k] + [a[k]] && b == b[..k] + [b[k]];
    }
  }

  lemma LastDigit(x: int, a: int, y: int, b: int, base: int)
    requires x * base + a == y * base + b && 0 <= a < base && 0 <= b < base
    ensures x == y && a == b
  {
    Difference(x, y, base);
    Difference(y, x, base);
  }

  lemma Difference(x: int, y: int, base: int)
    requires base > 0
    ensures x < y ==> y * base - x * base >= base
    ensures x == y ==> y * base == x * base
  {
    var d := y - x;
    assert y * base == (x + d) * base == x * base + d * base;
    if d >= 1 {
      assert d * base == (d - 1) * base + base;
    }
  }

  /** The stored bytes of a 32-bit value write it in base 256. */
  lemma StoreNumber(v: u32)
    ensures Num(StoreBe32(v), 256) == v
  {
    hide Num;
    FourDigits(v / 0x100_0000, v / 0x1_0000 % 256, v / 256 % 256, v % 256, 256);
  }

  /** They are the only four bytes that do. */
  lemma StoreUnique(v: u32, p: seq<byte>)
    requires |p| == 4 && Num(p, 256) == v
    ensures p == StoreBe32(v)
  {
    hide Num, StoreBe32;
    StoreNumber(v);
    NumInjective(p, StoreBe32(v), 256);
  }

  function Pow2(k: nat): (p: int)
    ensures p >= 1
  {
    if k == 0 then 1 else 2 * Pow2(k - 1)
  }

  lemma Pow2Seven(k: nat)
    ensures Pow2(k + 7) == 128 * Pow2(k)
  {
    assert Pow2(k + 7) == 2 * Pow2(k + 6) == 4 * Pow2(k + 5) == 8 * Pow2(k + 4) == 16 * Pow2(k + 3);
    assert Pow2(k + 3) == 2 * Pow2(k + 2) == 4 * Pow2(k + 1) == 8 * Pow2(k);
  }

  /** A further digit in front, in base 128. */
  lemma {:induction false} NumCons(x: int, s: seq<int>)
    ensures Num([x] + s, 128) == x * Pow2(7 * |s|) + Num(s, 128)
    decreases |s|
  {
    hide Num, Pow2;
    NumEmpty(128);
    if s == [] {
      assert [x] + s == [] + [x];
      NumSnoc([], x, 128);
      PowZero();
    } else {
      var k := |s| - 1;
      NumCons(x, s[..k]);
      assert s == s[..k] + [s[k]] && [x] + s == [x] + s[..k] + [s[k]];
      NumSnoc(s[..k], s[k], 128);
      NumSnoc([x] + s[..k], s[k], 128);
      NextPower(x, k);
    }
  }

  lemma PowZero()
    ensures Pow2(0) == 1
  {
  }

  lemma NextPower(x: int, k: nat)
    ensures x * Pow2(7 * (k + 1)) == x * Pow2(7 * k) * 128
  {
    Pow2Seven(7 * k);
  }

  /** A number of n digits lies below the n-th power of the base. */
  lemma {:induction false} NumBounds(s: seq<int>)
    requires forall i :: 0 <= i < |s| ==> 0 <= s[i] < 128
    ensures 0 <= Num(s, 128) < Pow2(7 * |s|)
    decreases |s|
  {
    if s != [] {
      var k := |s| - 1;
      NumBounds(s[..k]);
      assert s[k] == s[|s| - 1];
      Pow2Seven(7 * k);
    }
  }

  /** A remainder below 2^m is shifted out. */
  lemma {:induction false} ShiftIs(v: int, m: nat, q: int, r: int)
    requires v == q * Pow2(m) + r && 0 <= r < Pow2(m)
    ensures Shift(v, m) == q
    decreases m
  {
    if m > 0 {
      var p := Pow2(m - 1);
      assert v == 2 * (q * p) + r;
      assert v / 2 == q * p + r / 2;
      ShiftIs(v / 2, m - 1, q, r / 2);
    }
  }

  /** Shifting right by k bits divides by 2^k. */
  lemma ShiftDivides(v: nat, k: nat)
    ensures Shift(v, k) == v / Pow2(k)
  {
    ShiftIs(v, k, v / Pow2(k), v % Pow2(k));
  }
}
