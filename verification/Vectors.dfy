/** Bytes as bit vectors. */
module Vectors {
  lemma ByteVector(x: int)
    requires 0 <= x < 256
    ensures (x as bv8) as int == x
  {
  }

  lemma HalfVector(v: bv8)
    ensures (v >> 1) as int == v as int / 2
  {
  }

  lemma ShiftVector(v: bv8, b: bv4)
    requires 0 < b < 8
    ensures v >> b == (v >> 1) >> (b - 1)
  {
  }

  lemma OddVector(v: bv8)
    ensures v & 1 == 1 <==> v as int % 2 == 1
  {
  }
}
