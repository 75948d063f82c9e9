/** wm_hashcash_solve of wm_https.c: the chunked search for the least nonce whose digest is small enough, over any
    hash function. */
module Hashcash {
  import opened Machine32
  import opened Digits
  import Base64
  import Base64Text

  const TOKEN: nat := 48
  const REPEAT: nat := 262144
  const CHUNK_REPEATS: nat := 256
  const FULL_CHUNKS: nat := 1023
  const TAIL_REPEATS: nat := 254

  /** SHA-256 of BearSSL: the bytes fed since init to a 32-byte digest. */
  type Hash = seq<byte> -> seq<byte>

  ghost predicate Wide(h: Hash) {
    forall s: seq<byte> :: |h(s)| == 32
  }

  /** br_sha256_context: what matters is the bytes fed so far. */
  class Context {
    var fed: seq<byte>

    constructor ()
      ensures fed == []
    {
      fed := [];
    }

    method Init()
      modifies this
      ensures fed == []
    {
      fed := [];
    }

    method Update(data: seq<byte>)
      modifies this
      ensures fed == old(fed) + data
    {
      fed := fed + data;
    }
  }

  // ----- Words and thresholds -----

  function LoadBe32(p: seq<byte>): u32
    requires |p| >= 4
  {
    var a: int, b: int, c: int, d: int := p[0], p[1], p[2], p[3];
    a * 0x100_0000 + b * 0x1_0000 + c * 256 + d
  }

  lemma LoadStore(v: u32)
    ensures LoadBe32(StoreBe32(v)) == v
  {
    BytesOf(v, v / 256, v / 0x1_0000);
  }

  lemma BytesOf(v: int, x: int, y: int)
    requires x == v / 256 && y == v / 0x1_0000
    ensures v == x * 256 + v % 256 && x == y * 256 + x % 256 && y == v / 0x100_0000 * 256 + y % 256
  {
  }

  function Threshold(e: byte): u32 {
    var mantissa := e % 64 * 2 + 1;
    if e < 64 then mantissa * 0x8
    else if e < 128 then mantissa * 0x400
    else if e < 192 then mantissa * 0x2_0000
    else mantissa * 0x100_0000
  }

  lemma ThresholdIncreases(e: byte, f: byte)
    requires e < f
    ensures Threshold(e) < Threshold(f)
  {
  }

  /** `(((e & 63) << 1) + 1) << (((e >> 6) * 7) + 3)`, each shift a multiplication by a power of two. */
  lemma ThresholdIs(e: byte)
    ensures Threshold(e) == (e % 64 * 2 + 1) * Pow2(e / 64 * 7 + 3)
  {
    assert Pow2(3) == 8;
    Pow2Seven(3);
    Pow2Seven(10);
    Pow2Seven(17);
  }

  // ----- What is hashed -----

  /** The token n times. */
  function Repeat(token: seq<byte>, n: nat): (s: seq<byte>)
    ensures |s| == n * |token|
  {
    if n == 0 then [] else Repeat(token, n - 1) + token
  }

  lemma {:induction false} RepeatAdd(token: seq<byte>, n: nat, m: nat)
    ensures Repeat(token, n) + Repeat(token, m) == Repeat(token, n + m)
    decreases m
  {
    if m == 0 {
      assert Repeat(token, n) + [] == Repeat(token, n);
    } else {
      RepeatAdd(token, n, m - 1);
      assert Repeat(token, n) + (Repeat(token, m - 1) + token) == Repeat(token, n) + Repeat(token, m - 1) + token;
    }
  }

  /** The message of a nonce: the big-endian nonce, then the token 262144 times. */
  function Message(token: seq<byte>, nonce: u32): seq<byte> {
    StoreBe32(nonce) + Repeat(token, REPEAT)
  }

  ghost predicate Accepts(h: Hash, token: seq<byte>, e: byte, nonce: u32)
    requires Wide(h)
  {
    LoadBe32(h(Message(token, nonce))) <= Threshold(e)
  }

  ghost predicate NoneBelow(h: Hash, token: seq<byte>, e: byte, n: nat)
    requires Wide(h)
  {
    forall m: u32 :: m < n ==> !Accepts(h, token, e, m)
  }

  /** The answer of the search: the least accepted nonce. */
  ghost predicate Least(h: Hash, token: seq<byte>, e: byte, n: u32)
    requires Wide(h)
  {
    Accepts(h, token, e, n) && NoneBelow(h, token, e, n)
  }

  lemma LeastUnique(h: Hash, token: seq<byte>, e: byte, n: u32, m: u32)
    requires Wide(h) && Least(h, token, e, n) && Least(h, token, e, m)
    ensures n == m
  {
    hide Accepts;
  }

  /** A larger easiness is answered no later. */
  lemma EasierIsEarlier(h: Hash, token: seq<byte>, e: byte, f: byte, n: u32, m: u32)
    requires Wide(h) && e <= f && Least(h, token, e, n) && Least(h, token, f, m)
    ensures m <= n
  {
    hide Threshold, Message;
    if e < f {
      ThresholdIncreases(e, f);
    }
    assert Accepts(h, token, f, n);
  }

  // ----- The search -----

  method FillRepeats(token: seq<byte>, n: nat, a: array<byte>)
    requires |token| == TOKEN && a.Length == TOKEN * n
    modifies a
    ensures a[..] == Repeat(token, n)
  {
    for i := 0 to n
      invariant a[..TOKEN * i] == Repeat(token, i)
    {
      CopyInto(token, a, TOKEN * i);
      assert a[..TOKEN * (i + 1)] == a[..TOKEN * i] + token;
    }
    assert a[..TOKEN * n] == a[..];
  }

  /** The clock check after chunk i of a nonce. */
  predicate CheckedAt(i: nat) { i < FULL_CHUNKS && i % 32 == 31 }

  ghost predicate InTime(timedOut: (u32, nat) -> bool, nonce: u32) {
    forall i: nat :: CheckedAt(i) ==> !timedOut(nonce, i)
  }

  ghost predicate InTimeUpTo(timedOut: (u32, nat) -> bool, n: nat) {
    forall m: u32 :: m < n ==> InTime(timedOut, m)
  }

  /** The digest of one nonce; None when the clock runs out while hashing. */
  method Digest(h: Hash, token: seq<byte>, first: seq<byte>, chunk: seq<byte>, tail: seq<byte>,
                timedOut: (u32, nat) -> bool, nonce: u32) returns (digest: Option<seq<byte>>)
    requires Wide(h)
    requires |token| == TOKEN && first == StoreBe32(nonce) + token + token[..12]
    requires chunk == Repeat(token, CHUNK_REPEATS) && tail == Repeat(token, TAIL_REPEATS)
    ensures digest.Some? <==> InTime(timedOut, nonce)
    ensures digest.Some? ==> digest.value == h(Message(token, nonce)) && |digest.value| == 32
  {
    hide Repeat, Message, StoreBe32;
    var ctx := new Context();
    ctx.Init();
    ctx.Update(first);
    ctx.Update(token[12..]);
    FirstFed(token, nonce, ctx.fed);
    for i := 0 to FULL_CHUNKS
      invariant ctx.fed == StoreBe32(nonce) + Repeat(token, 2 + i * CHUNK_REPEATS)
      invariant forall k: nat :: k < i && CheckedAt(k) ==> !timedOut(nonce, k)
    {
      NextFed(token, nonce, 2 + i * CHUNK_REPEATS, CHUNK_REPEATS);
      ctx.Update(chunk);
      if i % 32 == 31 {
        if timedOut(nonce, i) {
          assert CheckedAt(i);
          return None;
        }
      }
    }
    NextFed(token, nonce, 2 + FULL_CHUNKS * CHUNK_REPEATS, TAIL_REPEATS);
    ctx.Update(tail);
    assert ctx.fed == Message(token, nonce) by {
      AllFed(token, nonce);
    }
    return Some(h(ctx.fed));
  }

  lemma FirstFed(token: seq<byte>, nonce: u32, fed: seq<byte>)
    requires |token| == TOKEN && fed == StoreBe32(nonce) + token + token[..12] + token[12..]
    ensures fed == StoreBe32(nonce) + Repeat(token, 2 + 0 * CHUNK_REPEATS)
  {
    RepeatTwice(token);
    hide Repeat, StoreBe32;
    assert token[..12] + token[12..] == token;
    assert fed == StoreBe32(nonce) + (token + (token[..12] + token[12..]));
  }

  lemma RepeatTwice(token: seq<byte>)
    ensures Repeat(token, 2) == token + token
  {
    assert Repeat(token, 0) == [];
    assert Repeat(token, 1) == [] + token;
  }

  lemma NextFed(token: seq<byte>, nonce: u32, n: nat, m: nat)
    ensures StoreBe32(nonce) + Repeat(token, n) + Repeat(token, m) == StoreBe32(nonce) + Repeat(token, n + m)
  {
    hide Repeat, StoreBe32;
    RepeatAdd(token, n, m);
    assert StoreBe32(nonce) + Repeat(token, n) + Repeat(token, m)
        == StoreBe32(nonce) + (Repeat(token, n) + Repeat(token, m));
  }

  lemma AllFed(token: seq<byte>, nonce: u32)
    ensures StoreBe32(nonce) + Repeat(token, 2 + FULL_CHUNKS * CHUNK_REPEATS + TAIL_REPEATS) == Message(token, nonce)
  {
    hide Repeat, StoreBe32;
  }

  /** The search succeeds: the least accepted nonce exists and the clock lets it be reached. */
  ghost predicate Answer(h: Hash, token: seq<byte>, e: byte, timedOut: (u32, nat) -> bool, n: u32)
    requires Wide(h)
  {
    Least(h, token, e, n) && InTimeUpTo(timedOut, n + 1)
  }

  lemma {:induction false} RepeatAt(token: seq<byte>, n: nat, k: nat)
    requires k < n * |token|
    ensures Repeat(token, n)[k] == token[k % |token|]
    decreases n
  {
    var m := |token|;
    if k < (n - 1) * m {
      RepeatAt(token, n - 1, k);
    } else {
      assert Repeat(token, n)[k] == token[k - (n - 1) * m];
      LastDigit(k / m, k % m, n - 1, k - (n - 1) * m, m);
    }
  }

  lemma LoadIsNum(p: seq<byte>)
    requires |p| >= 4
    ensures LoadBe32(p) == Num(p[..4], 256)
  {
    hide Num;
    FourDigits(p[0], p[1], p[2], p[3], 256);
    assert p[..4] == [p[0], p[1], p[2], p[3]];
  }

  /** The message hashed for a nonce, byte by byte: the nonce in four bytes, then 262144 copies of the token. */
  lemma MessageIs(token: seq<byte>, nonce: u32, message: seq<byte>)
    requires |token| == 48 && |message| == 4 + 48 * 262144 && Num(message[..4], 256) == nonce
    requires forall k :: 0 <= k < 48 * 262144 ==> message[4..][k] == token[k % 48]
    ensures Message(token, nonce) == message
  {
    hide Num, StoreBe32, Repeat;
    StoreUnique(nonce, message[..4]);
    assert message == message[..4] + message[4..];
    forall k | 0 <= k < 48 * 262144
      ensures Repeat(token, 262144)[k] == message[4..][k]
    {
      RepeatAt(token, 262144, k);
    }
    assert Repeat(token, 262144) == message[4..];
  }

  lemma ClockIs(timedOut: (u32, nat) -> bool, n: u32)
    ensures InTimeUpTo(timedOut, n + 1) <==>
              forall m: u32, i: nat :: m <= n && i < 1023 && i % 32 == 31 ==> !timedOut(m, i)
  {
    if InTimeUpTo(timedOut, n + 1) {
      forall m: u32, i: nat | m <= n && i < 1023 && i % 32 == 31
        ensures !timedOut(m, i)
      {
        assert InTime(timedOut, m) && CheckedAt(i);
      }
    }
  }

  /** What an answer is, without the functions of this module: the first four bytes of the digest write a number within
      the threshold, no smaller nonce does as well, and the clock has not run out at any check so far. */
  lemma AnswerMeans(h: Hash, token: seq<byte>, e: byte, timedOut: (u32, nat) -> bool, n: u32,
                    message: u32 -> seq<byte>)
    requires Wide(h) && |token| == 48
    requires forall m :: |message(m)| == 4 + 48 * 262144 && Num(message(m)[..4], 256) == m
    requires forall m, k :: 0 <= k < 48 * 262144 ==> message(m)[4..][k] == token[k % 48]
    ensures Answer(h, token, e, timedOut, n) <==>
              var limit := (e % 64 * 2 + 1) * Pow2(e / 64 * 7 + 3);
              && Num(h(message(n))[..4], 256) <= limit
              && (forall m: u32 :: m < n ==> Num(h(message(m))[..4], 256) > limit)
              && forall m: u32, i: nat :: m <= n && i < 1023 && i % 32 == 31 ==> !timedOut(m, i)
  {
    hide Num, Threshold, LoadBe32, Message, Pow2, InTimeUpTo;
    ThresholdIs(e);
    ClockIs(timedOut, n);
    forall m: u32
      ensures |h(message(m))| == 32
      ensures Accepts(h, token, e, m) <==>
                Num(h(message(m))[..4], 256) <= (e % 64 * 2 + 1) * Pow2(e / 64 * 7 + 3)
    {
      MessageIs(token, m, message(m));
      LoadIsNum(h(message(m)));
    }
  }

  /** A clock that runs out before any nonce is accepted leaves no answer. */
  lemma TooLate(h: Hash, token: seq<byte>, e: byte, timedOut: (u32, nat) -> bool, nonce: u32)
    requires Wide(h) && NoneBelow(h, token, e, nonce) && !InTime(timedOut, nonce)
    ensures !exists n: u32 :: Answer(h, token, e, timedOut, n)
  {
    hide Accepts, InTime;
  }

  lemma NothingTried(h: Hash, token: seq<byte>, e: byte, timedOut: (u32, nat) -> bool)
    requires Wide(h)
    ensures InTimeUpTo(timedOut, 0) && NoneBelow(h, token, e, 0)
  {
  }

  /** A nonce hashed in time is the answer or moves the search on. */
  lemma TurnDone(h: Hash, token: seq<byte>, e: byte, timedOut: (u32, nat) -> bool, nonce: u32)
    requires Wide(h) && NoneBelow(h, token, e, nonce) && InTimeUpTo(timedOut, nonce) && InTime(timedOut, nonce)
    ensures InTimeUpTo(timedOut, nonce + 1)
    ensures |h(Message(token, nonce))| == 32
    ensures if LoadBe32(h(Message(token, nonce))) <= Threshold(e) then Answer(h, token, e, timedOut, nonce)
            else NoneBelow(h, token, e, nonce + 1)
  {
    hide InTime, Message, Threshold, LoadBe32;
    assert Accepts(h, token, e, nonce) <==> LoadBe32(h(Message(token, nonce))) <= Threshold(e);
  }

  lemma NoNonce(h: Hash, token: seq<byte>, e: byte, timedOut: (u32, nat) -> bool)
    requires Wide(h) && NoneBelow(h, token, e, M32)
    ensures !exists n: u32 :: Answer(h, token, e, timedOut, n)
  {
    hide Accepts, InTimeUpTo;
  }

  /** The text of a nonce, as the caller gets it. */
  function NonceText(n: u32): string {
    Base64.Text(Base64.Sextets(StoreBe32(n)))
  }

  lemma NonceTextDecodes(n: u32)
    ensures |NonceText(n)| == 6 && Base64.Decoded(Some(NonceText(n))) == Some(StoreBe32(n))
    ensures LoadBe32(Base64.Decoded(Some(NonceText(n))).value) == n
  {
    Base64.RoundTrip(StoreBe32(n));
    LoadStore(n);
    hide Base64.Decoded, LoadBe32, StoreBe32;
  }

  /** Its characters are the base-64 digits of the nonce, followed by four zero bits, in the URL-safe alphabet. */
  lemma NonceTextIs(n: u32, ds: seq<int>)
    requires |ds| == 6 && Num(ds, 64) == n * 16 && forall i :: 0 <= i < 6 ==> 0 <= ds[i] < 64
    ensures |Base64Text.URL_SAFE| == 64 && |NonceText(n)| == 6
    ensures forall i :: 0 <= i < 6 ==> NonceText(n)[i] == Base64Text.URL_SAFE[ds[i]]
  {
    hide Num, StoreBe32, Base64.Text, Base64.Sextets, Base64Text.URL_SAFE;
    StoreNumber(n);
    assert Pow2(4) == 16;
    Base64Text.EncodedText(StoreBe32(n), ds);
  }

  /** The loop over nonces, with its buffers: the answer, or None when there is none. */
  method Search(h: Hash, token: seq<byte>, e: byte, timedOut: (u32, nat) -> bool) returns (found: Option<u32>)
    requires Wide(h) && |token| == TOKEN
    ensures found.Some? ==> Answer(h, token, e, timedOut, found.value)
    ensures found.None? ==> !exists n: u32 :: Answer(h, token, e, timedOut, n)
  {
    hide Wide, Repeat, Least, InTime, InTimeUpTo, Threshold, NoneBelow, Accepts, Answer, LoadBe32, Message, StoreBe32;
    var first := new byte[64](_ => 0);
    CopyInto(token, first, 4);
    CopyInto(token[..12], first, 4 + TOKEN);
    var chunk := new byte[TOKEN * CHUNK_REPEATS];
    FillRepeats(token, CHUNK_REPEATS, chunk);
    var tail := new byte[TOKEN * TAIL_REPEATS];
    FillRepeats(token, TAIL_REPEATS, tail);
    var nonce: u32 := 0;
    NothingTried(h, token, e, timedOut);
    while true
      invariant first.Length == 64 && first[4..] == token + token[..12]
      invariant chunk[..] == Repeat(token, CHUNK_REPEATS) && tail[..] == Repeat(token, TAIL_REPEATS)
      invariant NoneBelow(h, token, e, nonce) && InTimeUpTo(timedOut, nonce)
      decreases M32 - nonce
    {
      StoreNonce(first, nonce);
      var digest := Digest(h, token, first[..], chunk[..], tail[..], timedOut, nonce);
      if digest.None? {
        TooLate(h, token, e, timedOut, nonce);
        return None;
      }
      TurnDone(h, token, e, timedOut, nonce);
      if LoadBe32(digest.value) <= Threshold(e) {
        return Some(nonce);
      }
      if nonce == 0xffff_ffff {
        NoNonce(h, token, e, timedOut);
        break;
      }
      nonce := nonce + 1;
    }
    return None;
  }

  method StoreNonce(first: array<byte>, nonce: u32)
    requires first.Length == 64
    modifies first
    ensures first[..] == StoreBe32(nonce) + old(first[4..]) && first[4..] == old(first[4..])
  {
    CopyInto(StoreBe32(nonce), first, 0);
  }

  /** wm_hashcash_solve: succeeds exactly when the arguments are right, the text fits and the least accepted nonce is
      reached in time, and then leaves the text of that nonce. */
  method Solve(h: Hash, tokenText: Option<string>, easiness: u32, prefix: array?<char>, timedOut: (u32, nat) -> bool)
    returns (ok: bool)
    requires Wide(h)
    modifies prefix
    ensures ok <==> tokenText.Some? && prefix != null && prefix.Length > 6 && easiness <= 255
                    && Base64.Decoded(tokenText).Some? && |Base64.Decoded(tokenText).value| == 48
                    && exists n: u32 :: Answer(h, Base64.Decoded(tokenText).value, easiness, timedOut, n)
    ensures ok ==> exists n: u32 :: Answer(h, Base64.Decoded(tokenText).value, easiness, timedOut, n)
                                    && prefix[..6] == NonceText(n) && prefix[6] == '\0'
  {
    hide Wide, Base64.Decoded, Answer, StoreBe32, Base64.Text, Base64.Sextets;
    if tokenText.None? || prefix == null || prefix.Length == 0 || easiness > 255 {
      return false;
    }
    var tokenBin := new byte[TOKEN];
    var decoded := Base64.HashcashDecode(tokenText, tokenBin);
    if decoded != TOKEN {
      return false;
    }
    var token := tokenBin[..];
    assert token == tokenBin[..TOKEN];
    var found := Search(h, token, easiness, timedOut);
    if found.None? {
      return false;
    }
    ok := Base64.B64Encode(StoreBe32(found.value), prefix);
  }
}
