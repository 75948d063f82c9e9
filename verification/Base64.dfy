/** The unpadded base64 encoder of wm_https.c and the two streaming decoders of wm_https.c and wm_cert_store.c, against
    the reading of a digit string as one big-endian number (sections 3.2, 4 and 5 of RFC 4648). */
module Base64 {
  import opened Machine32
  import opened Digits

  type sextet = x: int | 0 <= x < 64

  // ----- Alphabets -----

  /** wm_hashcash_from64: both alphabets; -1 for other characters. */
  function From64(c: char): (v: int)
    ensures -1 <= v < 64
  {
    if 'A' <= c <= 'Z' then (c as int) - ('A' as int)
    else if 'a' <= c <= 'z' then (c as int) - ('a' as int) + 26
    else if '0' <= c <= '9' then (c as int) - ('0' as int) + 52
    else if c == '-' || c == '+' then 62
    else if c == '_' || c == '/' then 63
    else -1
  }

  /** wm_cert_store_b64_value: the standard alphabet only. */
  function CertValue(c: char): (v: int)
    ensures -1 <= v < 64
  {
    if 'A' <= c <= 'Z' then (c as int) - ('A' as int)
    else if 'a' <= c <= 'z' then (c as int) - ('a' as int) + 26
    else if '0' <= c <= '9' then (c as int) - ('0' as int) + 52
    else if c == '+' then 62
    else if c == '/' then 63
    else -1
  }

  /** The encoder's alphabet, in order: A-Z, a-z, 0-9, '-' and '_'. */
  function Char64(v: sextet): char {
    if v < 26 then 'A' + v as char
    else if v < 52 then 'a' + (v - 26) as char
    else if v < 62 then '0' + (v - 52) as char
    else if v == 62 then '-' else '_'
  }

  lemma AlphabetValue(v: sextet)
    ensures From64(Char64(v)) == v && Char64(v) != '=' && Char64(v) != '\0'
  {
  }

  // ----- Decoding -----

  /** Bytes produced so far, with the bits left over and their count. */
  datatype Stream = Stream(bytes: seq<byte>, rem: int, count: int)

  function TwoTo(count: int): (p: int)
    ensures p in {1, 4, 16, 64}
  {
    if count == 0 then 1 else if count == 2 then 4 else if count == 4 then 16 else 64
  }

  ghost predicate WellFormed(d: Stream) {
    d.count in {0, 2, 4, 6} && 0 <= d.rem < TwoTo(d.count)
  }

  /** A number followed by some zero bits. */
  function Shifted(x: int, count: int): int { x * TwoTo(count) }

  /** One more sextet. */
  function Feed(d: Stream, v: sextet): (r: Stream)
    requires WellFormed(d)
    ensures WellFormed(r)
  {
    var w := d.rem * 64 + v;
    if d.count == 0 then Stream(d.bytes, v, 6)
    else Stream(d.bytes + [w / TwoTo(d.count - 2)], w % TwoTo(d.count - 2), d.count - 2)
  }

  function Decode(vals: seq<sextet>): (d: Stream)
    ensures WellFormed(d)
  {
    if vals == [] then Stream([], 0, 0) else Feed(Decode(vals[..|vals| - 1]), vals[|vals| - 1])
  }

  lemma FeedNumber(d: Stream, v: sextet)
    requires WellFormed(d)
    ensures var e := Feed(d, v);
            (Shifted(Num(d.bytes, 256), d.count) + d.rem) * 64 + v == Shifted(Num(e.bytes, 256), e.count) + e.rem
  {
    hide Num;
    if d.count != 0 {
      NumSnoc(d.bytes, (d.rem * 64 + v) / TwoTo(d.count - 2), 256);
    }
  }

  /** What decoding means: the bytes are the leading bits of the number the sextets write, eight at a time. */
  lemma {:induction false} DecodeNumber(vals: seq<sextet>)
    ensures var d := Decode(vals);
            && 6 * |vals| == 8 * |d.bytes| + d.count
            && Num(vals, 64) == Shifted(Num(d.bytes, 256), d.count) + d.rem
    decreases |vals|
  {
    hide Shifted, TwoTo;
    if vals != [] {
      var k := |vals| - 1;
      DecodeNumber(vals[..k]);
      FeedNumber(Decode(vals[..k]), vals[k]);
    } else {
      NoPadding(0);
    }
  }

  lemma NoPadding(x: int)
    ensures Shifted(x, 0) == x
  {
  }

  /** The accumulator wraps at 32 bits, but its low bits are those of the stream. */
  lemma Accumulator(buf: u32, d: Stream, v: sextet)
    requires WellFormed(d) && buf % TwoTo(d.count) == d.rem
    ensures var b, c := U32(buf * 64) + v, d.count + 6;
            && 0 <= b < M32
            && b % TwoTo(Feed(d, v).count) == Feed(d, v).rem
            && (c >= 8 ==> (b / TwoTo(c - 8)) % 256 == Feed(d, v).bytes[|d.bytes|])
  {
    hide U32;
    var k := U32Split(buf * 64);
    var p := TwoTo(d.count);
    var q := buf / p;
    assert buf == q * p + d.rem;
    var high := U32(buf * 64);
    match d.count {
      case 0 =>
        LowBits(high, v, buf - 0x400_0000 * k);
      case 2 =>
        LowBits(high, v, buf - 0x400_0000 * k);
        BitsAt(high + v, 256, q - 0x100_0000 * k, d.rem * 64 + v);
      case 4 =>
        LowBits(high, v, buf - 0x400_0000 * k);
        BitsAt(high + v, 1024, q - 0x40_0000 * k, d.rem * 64 + v);
        FourthAt(high + v, q - 0x40_0000 * k, d.rem * 64 + v);
      case _ =>
        LowBits(high, v, buf - 0x400_0000 * k);
        SixteenthAt(high + v, q - 0x10_0000 * k, d.rem * 64 + v);
    }
  }

  /** The accumulator of a decoder, with its bit count, holds the bits the stream has left over. */
  ghost predicate Held(acc: u32, bits: int, d: Stream) {
    WellFormed(d) && bits == d.count && acc % TwoTo(bits) == d.rem
  }

  /** `(acc >> bits) & 0xFF` */
  function TopByte(acc: u32, bits: int): byte { (acc / TwoTo(bits)) % 256 }

  /** One turn of either decoder: the wrapped accumulator still yields the next byte and the bits left over. */
  lemma BitBuffer(buf: u32, bits: int, d: Stream, v: sextet)
    requires Held(buf, bits, d)
    ensures var b, c, f := U32(buf * 64) + v, bits + 6, Feed(d, v);
            && WellFormed(d) && 0 <= b < 0x1_0000_0000
            && Held(b, if c >= 8 then c - 8 else c, f)
            && f.bytes == d.bytes + if c >= 8 then [TopByte(b, c - 8)] else []
  {
    hide U32;
    Accumulator(buf, d, v);
  }

  lemma LowBits(high: u32, v: sextet, q: int)
    requires high == q * 64
    ensures high + v < M32 && (high + v) % 64 == v
  {
  }

  lemma BitsAt(b: int, m: int, q: int, w: int)
    requires m in {256, 1024} && b == q * m + w && 0 <= w < m
    ensures b % m == w
  {
    if m == 256 {
      assert b == q * 256 + w;
    } else {
      assert b == q * 1024 + w;
    }
  }

  lemma FourthAt(b: int, q: int, w: int)
    requires b == q * 1024 + w && 0 <= w < 1024
    ensures b / 4 % 256 == w / 4 && b % 4 == w % 4
  {
    assert b / 4 == q * 256 + w / 4;
  }

  lemma SixteenthAt(b: int, q: int, w: int)
    requires b == q * 4096 + w && 0 <= w < 4096
    ensures b / 16 % 256 == w / 16 && b % 16 == w % 16
  {
    assert b / 16 == q * 256 + w / 16;
  }

  /** The text a decoder looks at: up to the first '=' or the end of the C string. */
  function Body(text: string): string {
    if text == [] || text[0] == '=' || text[0] == '\0' then [] else [text[0]] + Body(text[1..])
  }

  predicate AllFrom64(s: string) {
    forall i :: 0 <= i < |s| ==> From64(s[i]) >= 0
  }

  function Values(s: string): seq<sextet>
    requires AllFrom64(s)
  {
    seq(|s|, i requires 0 <= i < |s| => From64(s[i]))
  }

  lemma {:induction false} BodyPrefix(text: string, k: nat)
    requires k <= |text| && (forall i :: 0 <= i < k ==> text[i] != '=' && text[i] != '\0')
    requires k == |text| || text[k] == '=' || text[k] == '\0'
    ensures Body(text) == text[..k]
    decreases k
  {
    if k > 0 {
      BodyPrefix(text[1..], k - 1);
      assert text[..k] == [text[0]] + text[1..][..k - 1];
    }
  }

  /** More sextets give at least the bytes of fewer. */
  lemma {:induction false} DecodeGrows(vals: seq<sextet>, k: nat)
    requires k <= |vals|
    ensures Decode(vals[..k]).bytes <= Decode(vals).bytes
    decreases |vals|
  {
    if k < |vals| {
      assert vals[..|vals| - 1][..k] == vals[..k];
      DecodeGrows(vals[..|vals| - 1], k);
    } else {
      assert vals[..k] == vals;
    }
  }

  lemma ValuesPrefix(s: string, k: nat)
    requires AllFrom64(s) && k <= |s|
    ensures Values(s[..k]) == Values(s)[..k]
  {
  }

  /** What the decoder knows after p characters, all of them digits of the body. */
  ghost predicate ReadSoFar(t: string, p: nat, d: Stream) {
    && p <= |t| && (forall i :: 0 <= i < p ==> t[i] != '=' && t[i] != '\0')
    && AllFrom64(t[..p]) && d == Decode(Values(t[..p])) && WellFormed(d)
  }

  /** What the text decodes to; None when a character of the body belongs to neither alphabet. */
  function Decoded(text: Option<string>): Option<seq<byte>> {
    var body := Body(if text.Some? then text.value else []);
    if AllFrom64(body) then Some(Decode(Values(body)).bytes) else None
  }

  /** wm_hashcash_b64_decode: -1 when the text does not decode or its bytes do not fit; else their number. */
  method HashcashDecode(text: Option<string>, out: array<byte>) returns (r: int)
    modifies out
    ensures var d := Decoded(text);
            if d.None? || |d.value| > out.Length then r == -1 else r == |d.value| && out[..r] == d.value
    ensures text.None? ==> r == 0
  {
    hide ReadSoFar, Decoded, Held, TopByte, TwoTo, Feed, U32, From64;
    if text.None? {
      NoText();
      return 0;
    }
    var t := text.value;
    var used, bitbuf: u32, bitcount, p := 0, 0, 0, 0;
    ghost var d := Decode([]);
    NothingRead(t);
    while p < |t| && t[p] != '\0' && t[p] != '='
      invariant 0 <= p <= |t| && ReadSoFar(t, p, d)
      invariant 0 <= used == |d.bytes| <= out.Length && out[..used] == d.bytes
      invariant Held(bitbuf, bitcount, d)
    {
      var v := From64(t[p]);
      if v < 0 {
        BadCharacter(t, p, d);
        return -1;
      }
      NextValue(t, p, d);
      BitBuffer(bitbuf, bitcount, d, v);
      d := Feed(d, v);
      bitbuf := U32(bitbuf * 64) + v;
      bitcount := bitcount + 6;
      p := p + 1;
      if bitcount >= 8 {
        bitcount := bitcount - 8;
        if used >= out.Length {
          BodyTooLong(t, p, d);
          return -1;
        }
        out[used] := TopByte(bitbuf, bitcount);
        used := used + 1;
      }
    }
    AllRead(t, p, d);
    return used;
  }

  lemma NoText()
    ensures Decoded(None) == Some([])
  {
    assert Values([]) == [];
  }

  lemma NothingRead(t: string)
    ensures ReadSoFar(t, 0, Decode([])) && Decode([]) == Stream([], 0, 0) && Held(0, 0, Decode([]))
  {
    assert Values(t[..0]) == [];
  }

  lemma BadCharacter(t: string, p: nat, d: Stream)
    requires p < |t| && ReadSoFar(t, p, d) && t[p] != '=' && t[p] != '\0' && From64(t[p]) < 0
    ensures Decoded(Some(t)).None?
  {
    hide Body, From64;
    PrefixOfBody(t, p + 1);
    assert Body(t)[p] == t[..p + 1][p];
  }

  lemma NextValue(t: string, p: nat, d: Stream)
    requires p < |t| && ReadSoFar(t, p, d) && t[p] != '=' && t[p] != '\0' && From64(t[p]) >= 0
    ensures WellFormed(d) && ReadSoFar(t, p + 1, Feed(d, From64(t[p])))
  {
    hide Feed, From64;
    assert AllFrom64(t[..p + 1]);
    var vals := Values(t[..p + 1]);
    assert vals[..p] == Values(t[..p]);
    assert vals[p] == From64(t[p]);
  }

  lemma AllRead(t: string, p: nat, d: Stream)
    requires p <= |t| && ReadSoFar(t, p, d) && (p == |t| || t[p] == '=' || t[p] == '\0')
    ensures Decoded(Some(t)) == Some(d.bytes)
  {
    BodyPrefix(t, p);
  }

  /** Characters before the first '=' or NUL belong to the body. */
  lemma {:induction false} PrefixOfBody(text: string, k: nat)
    requires k <= |text| && forall i :: 0 <= i < k ==> text[i] != '=' && text[i] != '\0'
    ensures text[..k] <= Body(text)
    decreases k
  {
    if k > 0 {
      PrefixOfBody(text[1..], k - 1);
      assert text[..k] == [text[0]] + text[1..][..k - 1];
    }
  }

  lemma BodyTooLong(t: string, p: nat, d: Stream)
    requires ReadSoFar(t, p, d)
    ensures Decoded(Some(t)).Some? ==> |d.bytes| <= |Decoded(Some(t)).value|
  {
    hide Body, Decode;
    var body := Body(t);
    PrefixOfBody(t, p);
    if AllFrom64(body) {
      assert body[..p] == t[..p];
      ValuesPrefix(body, p);
      DecodeGrows(Values(body), p);
    }
  }

  /** The characters of the standard alphabet, as sextets; everything else is dropped. */
  function Kept(s: string): seq<sextet> {
    if s == [] then [] else
      Kept(s[..|s| - 1]) + if CertValue(s[|s| - 1]) >= 0 then [CertValue(s[|s| - 1])] else []
  }

  lemma {:induction false} KeptPrefix(s: string, k: nat)
    requires k <= |s|
    ensures Kept(s[..k]) <= Kept(s)
    decreases |s|
  {
    if k < |s| {
      assert s[..|s| - 1][..k] == s[..k];
      KeptPrefix(s[..|s| - 1], k);
    } else {
      assert s[..k] == s;
    }
  }

  /** The stream of the characters kept so far. */
  ghost function KeptStream(text: string, p: nat): Stream
    requires p <= |text|
  {
    Decode(Kept(text[..p]))
  }

  /** wm_cert_store_decode_b64: the bytes of the kept characters, or nothing when they do not fit. */
  method CertDecode(text: string, out: array<byte>) returns (r: nat)
    modifies out
    ensures var bytes := Decode(Kept(text)).bytes;
            if |bytes| > out.Length then r == 0 else r == |bytes| && out[..r] == bytes
  {
    hide *;
    var acc: u32, bits := 0, 0;
    r := 0;
    KeptEnds(text);
    for p := 0 to |text|
      invariant r == |KeptStream(text, p).bytes| <= out.Length && out[..r] == KeptStream(text, p).bytes
      invariant Held(acc, bits, KeptStream(text, p))
    {
      KeptStep(text, p);
      if text[p] == '=' {
        continue;
      }
      var v := CertValue(text[p]);
      if v < 0 {
        continue;
      }
      BitBuffer(acc, bits, KeptStream(text, p), v);
      acc := U32(acc * 64) + v;
      bits := bits + 6;
      if bits >= 8 {
        bits := bits - 8;
        if r >= out.Length {
          KeptTooLong(text, p + 1);
          return 0;
        }
        out[r] := TopByte(acc, bits);
        r := r + 1;
      }
    }
  }

  lemma KeptEnds(text: string)
    ensures KeptStream(text, 0) == Stream([], 0, 0) && Held(0, 0, KeptStream(text, 0))
    ensures KeptStream(text, |text|) == Decode(Kept(text))
  {
    NothingKept(text);
    hide Decode, Kept;
    assert text[..|text|] == text;
  }

  lemma KeptStep(text: string, p: nat)
    requires p < |text|
    ensures CertValue(text[p]) < 0 ==> KeptStream(text, p + 1) == KeptStream(text, p)
    ensures CertValue(text[p]) >= 0 ==>
              WellFormed(KeptStream(text, p))
              && KeptStream(text, p + 1) == Feed(KeptStream(text, p), CertValue(text[p]))
    ensures CertValue('=') < 0
  {
    hide Decode, Kept, Feed;
    KeptNext(text, p);
  }

  lemma KeptTooLong(text: string, k: nat)
    requires k <= |text|
    ensures |KeptStream(text, k).bytes| <= |Decode(Kept(text)).bytes|
  {
    hide Decode, Kept;
    KeptGrows(text, k);
  }

  lemma NothingKept(text: string)
    ensures Decode(Kept(text[..0])) == Decode([]) == Stream([], 0, 0) && Held(0, 0, Decode([]))
  {
  }

  lemma KeptNext(text: string, p: nat)
    requires p < |text|
    ensures CertValue(text[p]) < 0 ==> Kept(text[..p + 1]) == Kept(text[..p])
    ensures CertValue(text[p]) >= 0 ==> Decode(Kept(text[..p + 1])) == Feed(Decode(Kept(text[..p])), CertValue(text[p]))
    ensures CertValue('=') < 0
  {
    var s := text[..p + 1];
    assert s[..p] == text[..p];
    if CertValue(text[p]) >= 0 {
      assert Kept(s) == Kept(text[..p]) + [CertValue(text[p])];
      assert Kept(s)[..|Kept(s)| - 1] == Kept(text[..p]);
    }
  }

  lemma KeptGrows(text: string, k: nat)
    requires k <= |text|
    ensures |Decode(Kept(text[..k])).bytes| <= |Decode(Kept(text)).bytes|
  {
    hide Decode, Kept;
    KeptPrefix(text, k);
    var n := |Kept(text[..k])|;
    assert Kept(text)[..n] == Kept(text[..k]);
    DecodeGrows(Kept(text), n);
  }

  /** On text of the standard alphabet alone both decoders read the same sextets, hence the same bytes. */
  lemma {:induction false} DecodersAgree(s: string)
    requires forall i :: 0 <= i < |s| ==> CertValue(s[i]) >= 0
    ensures Body(s) == s && AllFrom64(s) && Kept(s) == Values(s)
    decreases |s|
  {
    StandardBody(s);
    hide Body, Values;
    if s == [] {
      assert Values(s) == [] by { ValuesPrefix(s, 0); }
    } else {
      var k := |s| - 1;
      DecodersAgree(s[..k]);
      ValuesSnoc(s);
    }
  }

  lemma StandardBody(s: string)
    requires forall i :: 0 <= i < |s| ==> CertValue(s[i]) >= 0
    ensures Body(s) == s && AllFrom64(s)
    ensures forall i :: 0 <= i < |s| ==> From64(s[i]) == CertValue(s[i])
  {
    hide From64, CertValue, Body;
    forall i | 0 <= i < |s|
      ensures From64(s[i]) == CertValue(s[i]) && s[i] != '=' && s[i] != '\0'
    {
      SameDigit(s[i]);
    }
    BodyPrefix(s, |s|);
  }

  lemma SameDigit(c: char)
    requires CertValue(c) >= 0
    ensures From64(c) == CertValue(c) && c != '=' && c != '\0'
  {
  }

  lemma ValuesSnoc(s: string)
    requires s != [] && AllFrom64(s)
    ensures Values(s) == Values(s[..|s| - 1]) + [From64(s[|s| - 1])]
  {
  }

  // ----- Encoding -----

  /** The first |g| + 1 sextets of a group of one to three bytes. */
  function Group(g: seq<byte>): (vs: seq<sextet>)
    requires 1 <= |g| <= 3
    ensures |vs| == |g| + 1
  {
    var value := Joined(g);
    var all: seq<sextet> := [value / 0x4_0000, value / 0x1000 % 64, value / 64 % 64, value % 64];
    all[..|g| + 1]
  }

  /** The bytes of a group in one 24-bit value, missing ones as zeros. */
  function Joined(g: seq<byte>): (v: int)
    requires 1 <= |g| <= 3
    ensures 0 <= v < 0x100_0000
  {
    var a: int, b: int, c: int := g[0], if |g| > 1 then g[1] else 0, if |g| > 2 then g[2] else 0;
    a * 0x10000 + b * 0x100 + c
  }

  /** The sextets of whole groups. */
  function Whole(data: seq<byte>): (vs: seq<sextet>)
    requires |data| % 3 == 0
    ensures |vs| == |data| / 3 * 4
  {
    if data == [] then [] else Whole(data[..|data| - 3]) + Group(data[|data| - 3..])
  }

  function EncodedLength(n: nat): nat { n / 3 * 4 + if n % 3 == 0 then 0 else n % 3 + 1 }

  /** How many bytes are in whole groups. */
  function WholeBytes(n: nat): (w: nat)
    ensures w % 3 == 0 && w <= n < w + 3 && n % 3 == n - w
  {
    n - n % 3
  }

  function Sextets(data: seq<byte>): (vs: seq<sextet>)
    ensures |vs| == EncodedLength(|data|)
  {
    var w := WholeBytes(|data|);
    Whole(data[..w]) + if w == |data| then [] else Group(data[w..])
  }

  function Text(vs: seq<sextet>): (s: string)
    ensures |s| == |vs|
  {
    seq(|vs|, i requires 0 <= i < |vs| => Char64(vs[i]))
  }

  /** Text written for the first i bytes (i a multiple of three, or past the end after a short group). */
  ghost function Written(data: seq<byte>, i: nat): (s: string)
    requires i % 3 == 0
    ensures |s| == EncodedLength(if i <= |data| then i else |data|)
  {
    Text(if i <= |data| then Whole(data[..i]) else Sextets(data))
  }

  function GroupAt(data: seq<byte>, i: nat): (g: seq<byte>)
    requires i < |data|
    ensures 1 <= |g| <= 3
  {
    if |data| - i >= 3 then data[i..i + 3] else data[i..]
  }

  /** wm_hashcash_b64_encode: succeeds exactly when the buffer exceeds the encoded length, and leaves the text and
      a NUL. */
  method B64Encode(data: seq<byte>, out: array<char>) returns (ok: bool)
    modifies out
    ensures ok <==> EncodedLength(|data|) < out.Length
    ensures ok ==> out[..EncodedLength(|data|)] == Text(Sextets(data)) && out[EncodedLength(|data|)] == '\0'
  {
    hide Written, Group, Text, Sextets, GroupAt;
    var used, i := 0, 0;
    NothingWritten(data);
    while i < |data|
      invariant 0 <= i < |data| + 3 && i % 3 == 0
      invariant used == EncodedLength(if i <= |data| then i else |data|)
      invariant used <= out.Length && (i > 0 ==> used < out.Length)
      invariant out[..used] == Written(data, i)
    {
      var remain := |data| - i;
      var vs := Group(GroupAt(data, i));
      var chars := if remain >= 3 then 4 else remain + 1;
      GroupDone(data, i);
      if used + chars >= out.Length {
        LongerNeedsMore(i, |data|);
        return false;
      }
      used := PutChars(vs, out, used);
      i := i + 3;
    }
    AllWritten(data, i);
    if used >= out.Length {
      return false;
    }
    out[used] := '\0';
    return true;
  }

  /** The inner loop: the characters of one group, after those already there. */
  method PutChars(vs: seq<sextet>, out: array<char>, start: nat) returns (used: nat)
    requires start + |vs| <= out.Length
    modifies out
    ensures used == start + |vs| && out[..used] == old(out[..start]) + Text(vs)
  {
    used := start;
    for c := 0 to |vs|
      invariant used == start + c && out[..start] == old(out[..start])
      invariant forall k :: 0 <= k < c ==> out[start + k] == Char64(vs[k])
    {
      out[used] := Char64(vs[c]);
      used := used + 1;
    }
    assert out[..used] == out[..start] + out[start..used];
    assert out[start..used] == Text(vs);
  }

  lemma NothingWritten(data: seq<byte>)
    ensures Written(data, 0) == []
  {
  }

  lemma LongerNeedsMore(i: nat, n: nat)
    requires i < n && i % 3 == 0
    ensures EncodedLength(i) + (if n - i >= 3 then 4 else n - i + 1) <= EncodedLength(n)
  {
    if n - i >= 3 {
      assert n / 3 >= i / 3 + 1;
    }
  }

  lemma AllWritten(data: seq<byte>, i: nat)
    requires |data| <= i < |data| + 3 && i % 3 == 0
    ensures Written(data, i) == Text(Sextets(data))
  {
    if i == |data| {
      assert data[..i] == data;
    }
  }

  /** One more group: its characters come next. */
  lemma GroupDone(data: seq<byte>, i: nat)
    requires i < |data| && i % 3 == 0
    ensures var g := GroupAt(data, i);
            |g| == (if |data| - i >= 3 then 3 else |data| - i)
            && Written(data, i + 3) == Written(data, i) + Text(Group(g))
  {
    hide Group, Text, Written;
    if i + 3 <= |data| {
      WholeGroup(data, i);
    } else {
      ShortGroup(data, i);
    }
  }

  lemma WholeGroup(data: seq<byte>, i: nat)
    requires i + 3 <= |data| && i % 3 == 0
    ensures Written(data, i + 3) == Written(data, i) + Text(Group(GroupAt(data, i)))
  {
    hide Group, Text;
    assert data[..i + 3][..i] == data[..i];
    assert data[..i + 3][i..] == data[i..i + 3];
    assert Whole(data[..i + 3]) == Whole(data[..i]) + Group(GroupAt(data, i));
    TextConcat(Whole(data[..i]), Group(GroupAt(data, i)));
  }

  lemma ShortGroup(data: seq<byte>, i: nat)
    requires i < |data| < i + 3 && i % 3 == 0
    ensures Written(data, i + 3) == Written(data, i) + Text(Group(GroupAt(data, i)))
  {
    hide Group, Text, Whole;
    assert WholeBytes(|data|) == i;
    assert Sextets(data) == Whole(data[..i]) + Group(GroupAt(data, i));
    TextConcat(Whole(data[..i]), Group(GroupAt(data, i)));
  }

  lemma TextConcat(a: seq<sextet>, b: seq<sextet>)
    ensures Text(a + b) == Text(a) + Text(b)
  {
  }

  // ----- Round trip -----

  /** Number of zero bits that complete the last sextet. */
  function PadBits(n: nat): int { if n % 3 == 0 then 0 else if n % 3 == 1 then 4 else 2 }

  /** The sextets cut from a 24-bit value write its leading bits. */
  lemma SplitValue(v: int)
    requires 0 <= v < 0x100_0000
    ensures v / 0x4_0000 * 64 + v / 0x1000 % 64 == v / 0x1000
    ensures v / 0x1000 * 64 + v / 64 % 64 == v / 64
    ensures v / 64 * 64 + v % 64 == v
  {
  }

  /** The sextets of a group write its bytes, completed by the padding bits. */
  lemma GroupValue(g: seq<byte>)
    requires 1 <= |g| <= 3
    ensures var a: int, s: seq<int> := g[0], Group(g);
            && (|g| == 1 ==> s[0] * 64 + s[1] == a * 16)
            && (|g| == 2 ==> var b: int := g[1]; (s[0] * 64 + s[1]) * 64 + s[2] == (a * 256 + b) * 4)
            && (|g| == 3 ==> var b: int, c: int := g[1], g[2];
                             ((s[0] * 64 + s[1]) * 64 + s[2]) * 64 + s[3] == (a * 256 + b) * 256 + c)
  {
    SplitValue(Joined(g));
  }

  lemma OneByte(vs: seq<int>, data: seq<int>, g: seq<byte>)
    requires |g| == 1 && Num(vs, 64) == Num(data, 256)
    ensures Num(vs + Group(g), 64) == Num(data + g, 256) * 16
  {
    GroupValue(g);
    hide Num, Group;
    var s := Group(g);
    assert g == [g[0]] && s == [s[0], s[1]];
    NumTwo(vs, s[0], s[1], 64);
    NumSnoc(data, g[0], 256);
  }

  lemma TwoBytes(vs: seq<int>, data: seq<int>, g: seq<byte>)
    requires |g| == 2 && Num(vs, 64) == Num(data, 256)
    ensures Num(vs + Group(g), 64) == Num(data + g, 256) * 4
  {
    GroupValue(g);
    hide Num, Group;
    var s := Group(g);
    assert g == [g[0], g[1]] && vs + s == vs + [s[0], s[1]] + [s[2]];
    NumTwo(vs, s[0], s[1], 64);
    NumSnoc(vs + [s[0], s[1]], s[2], 64);
    NumTwo(data, g[0], g[1], 256);
  }

  lemma ThreeBytes(vs: seq<int>, data: seq<int>, g: seq<byte>)
    requires |g| == 3 && Num(vs, 64) == Num(data, 256)
    ensures Num(vs + Group(g), 64) == Num(data + g, 256)
  {
    GroupValue(g);
    hide Num, Group;
    var s := Group(g);
    assert data + g == data + [g[0], g[1]] + [g[2]] && vs + s == vs + [s[0], s[1]] + [s[2], s[3]];
    NumTwo(vs, s[0], s[1], 64);
    NumTwo(vs + [s[0], s[1]], s[2], s[3], 64);
    NumTwo(data, g[0], g[1], 256);
    NumSnoc(data + [g[0], g[1]], g[2], 256);
  }

  /** Appending a group to both sides keeps the numbers equal, up to the padding bits of a short group. */
  lemma GroupNumber(vs: seq<int>, data: seq<int>, g: seq<byte>)
    requires 1 <= |g| <= 3 && Num(vs, 64) == Num(data, 256)
    ensures Num(vs + Group(g), 64) == Shifted(Num(data + g, 256), PadBits(|g|))
  {
    hide Num, Group;
    match |g| {
      case 1 => OneByte(vs, data, g);
      case 2 => TwoBytes(vs, data, g);
      case _ => ThreeBytes(vs, data, g);
    }
  }

  lemma {:induction false} WholeNumber(data: seq<byte>)
    requires |data| % 3 == 0
    ensures Num(Whole(data), 64) == Num(data, 256)
    decreases |data|
  {
    if data != [] {
      hide Num, Group, Shifted;
      NoPadding(Num(data, 256));
      var k := |data| - 3;
      WholeNumber(data[..k]);
      assert data == data[..k] + data[k..];
      GroupNumber(Whole(data[..k]), data[..k], data[k..]);
    }
  }

  lemma LastGroupPads(n: nat, w: nat)
    requires w == WholeBytes(n)
    ensures w < n ==> PadBits(n - w) == PadBits(n)
    ensures w == n ==> PadBits(n) == 0
  {
  }

  lemma SextetsSplit(data: seq<byte>, w: nat)
    requires w == WholeBytes(|data|)
    ensures w == |data| ==> Sextets(data) == Whole(data)
    ensures w < |data| ==> Sextets(data) == Whole(data[..w]) + Group(data[w..])
  {
    hide Whole, Group;
    if w == |data| {
      assert data[..w] == data;
      assert Whole(data[..w]) + [] == Whole(data[..w]);
    }
  }

  lemma ShortNumber(whole: seq<byte>, last: seq<byte>)
    requires |whole| % 3 == 0 && 1 <= |last| <= 2
    ensures Num(Whole(whole) + Group(last), 64) == Shifted(Num(whole + last, 256), PadBits(|last|))
  {
    hide Num, Group, Whole, PadBits, Shifted;
    WholeNumber(whole);
    GroupNumber(Whole(whole), whole, last);
  }

  lemma EncodeWhole(data: seq<byte>)
    requires WholeBytes(|data|) == |data|
    ensures Num(Sextets(data), 64) == Shifted(Num(data, 256), PadBits(|data|))
  {
    hide *;
    LastGroupPads(|data|, |data|);
    SextetsSplit(data, |data|);
    WholeNumber(data);
    NoPadding(Num(data, 256));
  }

  lemma EncodeShort(data: seq<byte>, whole: seq<byte>, last: seq<byte>)
    requires data == whole + last && |whole| % 3 == 0 && 1 <= |last| <= 2
    ensures Num(Sextets(data), 64) == Shifted(Num(data, 256), PadBits(|data|))
  {
    hide *;
    ShortLengths(|whole|, |last|);
    assert data[..|whole|] == whole && data[|whole|..] == last;
    LastGroupPads(|data|, |whole|);
    SextetsSplit(data, |whole|);
    ShortNumber(whole, last);
  }

  lemma ShortLengths(w: nat, l: nat)
    requires w % 3 == 0 && 1 <= l <= 2
    ensures WholeBytes(w + l) == w
  {
  }

  /** The sextets write the same number as the bytes, shifted by the padding bits. */
  lemma EncodeNumber(data: seq<byte>)
    ensures Num(Sextets(data), 64) == Shifted(Num(data, 256), PadBits(|data|))
  {
    hide *;
    var w := WholeBytes(|data|);
    if w == |data| {
      EncodeWhole(data);
    } else {
      assert data == data[..w] + data[w..];
      EncodeShort(data, data[..w], data[w..]);
    }
  }

  /** Text written from sextets is read back as those sextets. */
  lemma TextValues(vs: seq<sextet>)
    ensures var text := Text(vs); Body(text) == text && AllFrom64(text) && Values(text) == vs
  {
    hide Body;
    var text := Text(vs);
    forall i | 0 <= i < |text|
      ensures From64(text[i]) == vs[i] && text[i] != '=' && text[i] != '\0'
    {
      AlphabetValue(vs[i]);
    }
    BodyPrefix(text, |text|);
  }

  /** The bits of the sextets are the bits of the bytes and less than eight padding bits. */
  lemma PaddingLeft(n: nat, m: nat, count: int)
    requires count in {0, 2, 4, 6} && 6 * EncodedLength(n) == 8 * m + count
    ensures m == n && count == PadBits(n)
  {
    var q := n / 3;
    assert n == 3 * q + n % 3;
  }

  /** Decoding the encoded text gives back the bytes, for every length. */
  lemma RoundTrip(data: seq<byte>)
    ensures Decoded(Some(Text(Sextets(data)))) == Some(data)
  {
    hide Num, Decode, Sextets, Text, Body, Values, EncodedLength, PadBits, AllFrom64, Shifted;
    var vs := Sextets(data);
    TextValues(vs);
    EncodeNumber(data);
    DecodeNumber(vs);
    var d := Decode(vs);
    PaddingLeft(|data|, |d.bytes|, d.count);
    SameLeading(Num(d.bytes, 256), Num(data, 256), d.rem, d.count);
    NumInjective(d.bytes, data, 256);
  }

  lemma SameLeading(x: int, y: int, rem: int, count: int)
    requires Shifted(x, count) + rem == Shifted(y, count) && 0 <= rem < TwoTo(count)
    ensures x == y
  {
  }
}
