/** wm_pbkdf2_sha512_b64salt of wm_https.c: PBKDF2 (section 5.2 of RFC 8018) over any keyed hash with a 64-byte
    output. */
module Kdf {
  import opened Machine32
  import opened Digits
  import Base64
  import Vectors

  const HASH: nat := 64
  const SALT_MAX: nat := 64

  /** HMAC-SHA512 of BearSSL: a key and a message to 64 bytes. */
  type Hmac = (seq<byte>, seq<byte>) -> seq<byte>

  ghost predicate Wide(h: Hmac) {
    forall key: seq<byte>, message: seq<byte> :: |h(key, message)| == HASH
  }

  // ----- The definition of the standard -----

  function Xor8(a: byte, b: byte): byte { ((a as bv8) ^ (b as bv8)) as int }

  function Xor(a: seq<byte>, b: seq<byte>): (r: seq<byte>)
    requires |a| == |b|
    ensures |r| == |a|
  {
    seq(|a|, k requires 0 <= k < |a| => Xor8(a[k], b[k]))
  }

  /** The inputs of one derivation. */
  datatype Inputs = Inputs(password: seq<byte>, salt: seq<byte>, iterations: u32)

  /** U_c of block i. */
  ghost function U(h: Hmac, p: Inputs, i: u32, c: nat): (u: seq<byte>)
    requires Wide(h) && c >= 1
    ensures |u| == HASH
    decreases c
  {
    h(p.password, if c == 1 then p.salt + StoreBe32(i) else U(h, p, i, c - 1))
  }

  /** U_1 xor ... xor U_c of block i. */
  ghost function XorChain(h: Hmac, p: Inputs, i: u32, c: nat): (t: seq<byte>)
    requires Wide(h) && c >= 1
    ensures |t| == HASH
    decreases c
  {
    if c == 1 then U(h, p, i, 1) else Xor(XorChain(h, p, i, c - 1), U(h, p, i, c))
  }

  /** T_i = F(P, S, c, i). */
  ghost function T(h: Hmac, p: Inputs, i: u32): (t: seq<byte>)
    requires Wide(h) && p.iterations >= 1
    ensures |t| == HASH
  {
    XorChain(h, p, i, p.iterations)
  }

  /** T_1 || ... || T_n. */
  ghost function Blocks(h: Hmac, p: Inputs, n: nat): (s: seq<byte>)
    requires Wide(h) && p.iterations >= 1 && n < M32
    ensures |s| == n * HASH
    decreases n
  {
    if n == 0 then [] else Blocks(h, p, n - 1) + T(h, p, n)
  }

  /** DK: the first `length` bytes of the blocks. */
  ghost function DerivedKey(h: Hmac, p: Inputs, length: u32): (dk: seq<byte>)
    requires Wide(h) && p.iterations >= 1
    ensures |dk| == length
  {
    Blocks(h, p, length / HASH + 1)[..length]
  }

  // ----- What the definition gives -----

  /** More blocks only add bytes at the end. */
  lemma {:induction false} BlocksExtend(h: Hmac, p: Inputs, n: nat, m: nat)
    requires Wide(h) && p.iterations >= 1 && n <= m < M32
    ensures n * HASH <= m * HASH && Blocks(h, p, m)[..n * HASH] == Blocks(h, p, n)
    decreases m
  {
    hide T;
    if n < m {
      BlocksExtend(h, p, n, m - 1);
    }
  }

  /** Byte k of the key is byte k mod 64 of block k / 64 + 1, whatever the length asked for. */
  lemma DerivedByte(h: Hmac, p: Inputs, length: u32, k: nat)
    requires Wide(h) && p.iterations >= 1 && k < length
    ensures DerivedKey(h, p, length)[k] == T(h, p, k / HASH + 1)[k % HASH]
  {
    hide T;
    var i := k / HASH;
    var n := length / HASH + 1;
    BlocksExtend(h, p, i + 1, n);
    assert Blocks(h, p, n)[..(i + 1) * HASH][k] == Blocks(h, p, i + 1)[k];
  }

  /** A shorter key is a prefix of a longer one with the same inputs. */
  lemma ShorterIsPrefix(h: Hmac, p: Inputs, short: u32, long: u32)
    requires Wide(h) && p.iterations >= 1 && short <= long
    ensures DerivedKey(h, p, short) == DerivedKey(h, p, long)[..short]
  {
    forall k | 0 <= k < short
      ensures DerivedKey(h, p, short)[k] == DerivedKey(h, p, long)[k]
    {
      DerivedByte(h, p, short, k);
      DerivedByte(h, p, long, k);
    }
  }

  /** Whether bit b of a byte is set. */
  ghost predicate Bit(x: byte, b: nat)
    requires b < 8
  {
    (x as bv8 >> b as bv4) & 1 == 1
  }

  /** How many of U_1, ..., U_c have bit b of byte k set. */
  ghost function SetCount(h: Hmac, p: Inputs, i: u32, c: nat, k: nat, b: nat): nat
    requires Wide(h) && k < HASH && b < 8
    decreases c
  {
    if c == 0 then 0 else SetCount(h, p, i, c - 1, k, b) + if Bit(U(h, p, i, c)[k], b) then 1 else 0
  }

  lemma VectorBit(x: bv8, y: bv8, b: bv4)
    requires b < 8
    ensures ((x ^ y) >> b) & 1 == ((x >> b) & 1) ^ ((y >> b) & 1)
  {
  }

  lemma XorVector(x: byte, y: byte)
    ensures Xor8(x, y) as bv8 == (x as bv8) ^ (y as bv8)
  {
  }

  lemma BitOfVector(v: bv8)
    ensures v & 1 == 0 || v & 1 == 1
  {
  }

  lemma XorBit(x: byte, y: byte, b: nat)
    requires b < 8
    ensures Bit(Xor8(x, y), b) <==> Bit(x, b) != Bit(y, b)
  {
    hide Xor8;
    var i := b as bv4;
    XorVector(x, y);
    VectorBit(x as bv8, y as bv8, i);
    BitOfVector(x as bv8 >> i);
    BitOfVector(y as bv8 >> i);
  }

  /** Every bit of a block is the parity of that bit over its whole U chain. */
  lemma {:induction false} ChainParity(h: Hmac, p: Inputs, i: u32, c: nat, k: nat, b: nat)
    requires Wide(h) && c >= 1 && k < HASH && b < 8
    ensures Bit(XorChain(h, p, i, c)[k], b) <==> SetCount(h, p, i, c, k, b) % 2 == 1
    decreases c
  {
    hide Xor8, Bit, U;
    if c > 1 {
      ChainParity(h, p, i, c - 1, k, b);
      XorBit(XorChain(h, p, i, c - 1)[k], U(h, p, i, c)[k], b);
    } else {
      assert SetCount(h, p, i, 0, k, b) == 0;
    }
  }

  lemma {:induction false} VectorShift(v: bv8, b: nat)
    requires b < 8
    ensures (v >> b as bv4) as int == Shift(v as int, b)
    decreases b
  {
    if b > 0 {
      VectorShift(v >> 1, b - 1);
      Vectors.HalfVector(v);
      Vectors.ShiftVector(v, b as bv4);
      assert (b - 1) as bv4 == b as bv4 - 1;
    }
  }

  /** A bit is a binary digit of the byte. */
  lemma BitIs(x: byte, b: nat)
    requires b < 8
    ensures Bit(x, b) <==> x / Pow2(b) % 2 == 1
  {
    hide Bit, Pow2, Shift;
    ShiftDivides(x, b);
    BitOfShift(x, b);
  }

  lemma BitOfShift(x: byte, b: nat)
    requires b < 8
    ensures Bit(x, b) <==> Shift(x, b) % 2 == 1
  {
    hide Shift;
    var v := x as bv8;
    Vectors.ByteVector(x);
    VectorShift(v, b);
    Vectors.OddVector(v >> b as bv4);
  }

  /** How often binary digit b is 1 in byte k of the strings. */
  function BitSum(us: seq<seq<byte>>, k: nat, b: nat): int
    requires forall c :: 0 <= c < |us| ==> k < |us[c]|
  {
    if us == [] then 0 else BitSum(us[..|us| - 1], k, b) + us[|us| - 1][k] / Pow2(b) % 2
  }

  lemma {:induction false} ChainCounted(h: Hmac, p: Inputs, i: u32, us: seq<seq<byte>>, k: nat, b: nat)
    requires Wide(h) && k < HASH && b < 8
    requires forall c :: 0 <= c < |us| ==> |us[c]| == HASH && us[c] == U(h, p, i, c + 1)
    ensures BitSum(us, k, b) == SetCount(h, p, i, |us|, k, b)
    decreases |us|
  {
    hide Bit, U, Pow2;
    if us != [] {
      ChainCounted(h, p, i, us[..|us| - 1], k, b);
      BitIs(us[|us| - 1][k], b);
    }
  }

  lemma {:induction false} ChainIsU(h: Hmac, p: Inputs, i: u32, us: seq<seq<byte>>, c: nat)
    requires Wide(h) && c < |us| && us[0] == h(p.password, p.salt + StoreBe32(i))
    requires forall c :: 0 <= c < |us| - 1 ==> us[c + 1] == h(p.password, us[c])
    ensures us[c] == U(h, p, i, c + 1)
    decreases c
  {
    hide StoreBe32;
    if c > 0 {
      ChainIsU(h, p, i, us, c - 1);
    }
  }

  /** The derived key, bit by bit: binary digit b of byte k is the parity of that digit in byte k mod 64 over as many
      strings as there are iterations, the first one hashed from the salt and the four-byte block number k / 64 + 1, and
      each further one from the string before it. */
  lemma KeyBits(h: Hmac, p: Inputs, length: u32, k: nat, b: nat, int4: seq<byte>, us: seq<seq<byte>>)
    requires Wide(h) && p.iterations >= 1 && k < length && b < 8
    requires |int4| == 4 && Num(int4, 256) == k / 64 + 1
    requires |us| == p.iterations && us[0] == h(p.password, p.salt + int4)
    requires forall c :: 0 <= c < |us| - 1 ==> us[c + 1] == h(p.password, us[c])
    ensures forall c :: 0 <= c < |us| ==> |us[c]| == 64
    ensures DerivedKey(h, p, length)[k] / Pow2(b) % 2 == BitSum(us, k % 64, b) % 2
  {
    hide Num, Pow2, U, XorChain, DerivedKey, StoreBe32, BitSum, SetCount, Bit;
    var i: u32 := k / HASH + 1;
    StoreUnique(i, int4);
    forall c | 0 <= c < |us|
      ensures us[c] == U(h, p, i, c + 1)
    {
      ChainIsU(h, p, i, us, c);
    }
    DerivedByte(h, p, length, k);
    ChainParity(h, p, i, p.iterations, k % HASH, b);
    ChainCounted(h, p, i, us, k % HASH, b);
    BitIs(DerivedKey(h, p, length)[k], b);
    Parity(DerivedKey(h, p, length)[k] / Pow2(b), BitSum(us, k % HASH, b));
  }

  lemma Parity(x: int, y: int)
    ensures x % 2 == y % 2 <==> (x % 2 == 1 <==> y % 2 == 1)
  {
  }

  // ----- The code -----

  /** The xor of one more U into t, in place. */
  method XorInto(t: array<byte>, u: array<byte>)
    requires t != u && t.Length == u.Length
    modifies t
    ensures t[..] == Xor(old(t[..]), u[..])
  {
    hide Xor8;
    for j := 0 to t.Length
      invariant forall k :: 0 <= k < j ==> t[k] == Xor8(old(t[k]), u[k])
      invariant forall k :: j <= k < t.Length ==> t[k] == old(t[k])
    {
      t[j] := Xor8(t[j], u[j]);
    }
    assert forall k :: 0 <= k < t.Length ==> t[..][k] == Xor8(old(t[..])[k], u[..][k]);
  }

  /** One turn of the outer loop: the block left in t, from a first input of salt and INT(i). */
  method Block(h: Hmac, password: seq<byte>, iterations: u32, first: seq<byte>, u: array<byte>, t: array<byte>,
               ghost p: Inputs, ghost i: u32)
    requires Wide(h) && iterations >= 1 && p.password == password && p.iterations == iterations
    requires first == p.salt + StoreBe32(i)
    requires u != t && u.Length == HASH && t.Length == HASH
    modifies u, t
    ensures t[..] == T(h, p, i)
  {
    hide Xor, StoreBe32, Wide;
    HashWidth(h, password, first);
    CopyInto(h(password, first), u, 0);
    assert u[..] == U(h, p, i, 1);
    CopyInto(u[..], t, 0);
    assert t[..] == XorChain(h, p, i, 1);
    for c := 1 to iterations
      invariant u[..] == U(h, p, i, c) && t[..] == XorChain(h, p, i, c)
    {
      HashWidth(h, password, u[..]);
      CopyInto(h(password, u[..]), u, 0);
      assert u[..] == U(h, p, i, c + 1);
      XorInto(t, u);
    }
  }

  /** The salt, then the block number. */
  method FirstInput(salt: seq<byte>, i: u32, first: array<byte>)
    requires |salt| + 4 <= first.Length
    modifies first
    ensures first[..|salt| + 4] == salt + StoreBe32(i)
  {
    CopyInto(salt, first, 0);
    CopyInto(StoreBe32(i), first, |salt|);
  }

  lemma HashWidth(h: Hmac, key: seq<byte>, message: seq<byte>)
    requires Wide(h)
    ensures |h(key, message)| == HASH
  {
  }

  /** The bytes copied from one more block continue those of the blocks before it. */
  lemma BlockCopied(h: Hmac, p: Inputs, n: u32, count: nat)
    requires Wide(h) && p.iterations >= 1 && n >= 1 && count <= HASH
    ensures |Blocks(h, p, n - 1)| + count <= |Blocks(h, p, n)|
    ensures Blocks(h, p, n - 1) + T(h, p, n)[..count] == Blocks(h, p, n)[..|Blocks(h, p, n - 1)| + count]
  {
    hide T;
  }

  lemma EnoughBlocks(h: Hmac, p: Inputs, n: nat, length: u32)
    requires Wide(h) && p.iterations >= 1 && length <= n * HASH < length + HASH
    ensures Blocks(h, p, n)[..length] == DerivedKey(h, p, length)
  {
    hide T, Blocks;
    assert n <= length / HASH + 1;
    BlocksExtend(h, p, n, length / HASH + 1);
  }

  function AtMost(x: nat, limit: nat): nat { if x <= limit then x else limit }

  /** The memcpy of a block, or of its first bytes, behind the blocks before it. */
  method AppendBlock(part: seq<byte>, out: array<byte>, produced: nat, ghost h: Hmac, ghost p: Inputs, ghost n: u32)
    requires Wide(h) && p.iterations >= 1 && n >= 1 && |part| <= HASH && part == T(h, p, n)[..|part|]
    requires produced == (n - 1) * HASH && produced + |part| <= out.Length
    requires out[..produced] == Blocks(h, p, n - 1)
    modifies out
    ensures |Blocks(h, p, n)| >= produced + |part|
    ensures out[..produced + |part|] == Blocks(h, p, n)[..produced + |part|]
    ensures out[produced + |part|..] == old(out[produced + |part|..])
  {
    hide Wide, T, Blocks;
    BlockCopied(h, p, n, |part|);
    CopyInto(part, out, produced);
  }

  /** wm_pbkdf2_sha512_b64salt. */
  method Pbkdf2(h: Hmac, password: Option<seq<byte>>, saltText: Option<string>, iterations: u32,
                out: array?<byte>, outLen: u32) returns (ok: bool)
    requires Wide(h)
    requires out != null ==> outLen <= out.Length
    modifies out
    ensures ok <==> password.Some? && saltText.Some? && out != null && outLen > 0 && iterations > 0
                    && Base64.Decoded(saltText).Some? && 1 <= |Base64.Decoded(saltText).value| <= 64
    ensures ok ==>
              var salt := Base64.Decoded(saltText).value;
              out[..outLen] == DerivedKey(h, Inputs(password.value, salt, iterations), outLen)
    ensures out != null ==> out[if ok then outLen else 0..] == old(out[if ok then outLen else 0..])
  {
    hide Wide, U, T, XorChain, Blocks, DerivedKey, StoreBe32, Base64.Decoded;
    if password.None? || saltText.None? || out == null || outLen == 0 || iterations == 0 {
      return false;
    }
    var salt := new byte[SALT_MAX];
    var decoded := Base64.HashcashDecode(saltText, salt);
    if decoded <= 0 {
      return false;
    }
    ghost var p := Inputs(password.value, salt[..decoded], iterations);
    var first, u, t := new byte[SALT_MAX + 4], new byte[HASH], new byte[HASH];
    var produced, blockIndex := 0, 1;
    while produced < outLen
      invariant 1 <= blockIndex && produced == AtMost((blockIndex - 1) * HASH, outLen)
      invariant (blockIndex - 1) * HASH < outLen + HASH && salt[..decoded] == p.salt
      invariant out[..produced] == Blocks(h, p, blockIndex - 1)[..produced]
      invariant out[outLen..] == old(out[outLen..])
    {
      if decoded + 4 > first.Length {
        return false;
      }
      FirstInput(salt[..decoded], blockIndex, first);
      Block(h, password.value, iterations, first[..decoded + 4], u, t, p, blockIndex);
      var copyLen := outLen - produced;
      if copyLen > HASH {
        copyLen := HASH;
      }
      AppendBlock(t[..copyLen], out, produced, h, p, blockIndex);
      produced := produced + copyLen;
      blockIndex := blockIndex + 1;
    }
    EnoughBlocks(h, p, blockIndex - 1, outLen);
    return true;
  }
}
