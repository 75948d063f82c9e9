/** The base64 codecs on text, in terms of the two alphabets of RFC 4648 (sections 4 and 5) and of numbers alone. */
module Base64Text {
  import opened Machine32
  import opened Digits
  import opened Base64

  const UPPER := "ABCDEFGHIJKLMNOPQRSTUVWXYZ"
  const LOWER := "abcdefghijklmnopqrstuvwxyz"
  const STANDARD := UPPER + LOWER + "0123456789+/"
  const URL_SAFE := UPPER + LOWER + "0123456789-_"

  // ----- Alphabets -----

  lemma Upper(v: int)
    requires 0 <= v < 26
    ensures UPPER[v] == 'A' + v as char
  {
    assert v in {0, 1, 2, 3, 4, 5, 6, 7, 8, 9, 10, 11, 12} || v in {13, 14, 15, 16, 17, 18, 19, 20, 21, 22, 23, 24, 25};
  }

  lemma Lower(v: int)
    requires 0 <= v < 26
    ensures LOWER[v] == 'a' + v as char
  {
    assert v in {0, 1, 2, 3, 4, 5, 6, 7, 8, 9, 10, 11, 12} || v in {13, 14, 15, 16, 17, 18, 19, 20, 21, 22, 23, 24, 25};
  }

  lemma Decimal(v: int)
    requires 0 <= v < 10
    ensures "0123456789-_"[v] == "0123456789+/"[v] == '0' + v as char
  {
    assert v in {0, 1, 2, 3, 4, 5, 6, 7, 8, 9};
  }

  lemma Pieces()
    ensures |STANDARD| == |URL_SAFE| == 64
    ensures forall v :: 0 <= v < 26 ==> URL_SAFE[v] == STANDARD[v] == UPPER[v]
    ensures forall v :: 26 <= v < 52 ==> URL_SAFE[v] == STANDARD[v] == LOWER[v - 26]
    ensures forall v :: 52 <= v < 62 ==> URL_SAFE[v] == "0123456789-_"[v - 52] && STANDARD[v] == "0123456789+/"[v - 52]
    ensures URL_SAFE[62] == '-' && URL_SAFE[63] == '_' && STANDARD[62] == '+' && STANDARD[63] == '/'
  {
  }

  /** The character of a sextet is found by its place in the alphabet. */
  lemma Places(v: int)
    requires 0 <= v < 64
    ensures |STANDARD| == |URL_SAFE| == 64 && Char64(v) == URL_SAFE[v]
    ensures CertValue(STANDARD[v]) == From64(STANDARD[v]) == From64(URL_SAFE[v]) == v
    ensures STANDARD[v] !in {'=', '\0'} && URL_SAFE[v] !in {'=', '\0'}
  {
    hide UPPER, LOWER, STANDARD, URL_SAFE;
    Pieces();
    if v < 26 { Upper(v); } else if v < 52 { Lower(v - 26); } else if v < 62 { Decimal(v - 52); }
  }

  /** And the value of a character is its place. */
  lemma Values64(c: char)
    ensures |STANDARD| == |URL_SAFE| == 64
    ensures c in STANDARD <==> CertValue(c) >= 0
    ensures c in STANDARD || c in URL_SAFE <==> From64(c) >= 0
    ensures CertValue(c) >= 0 ==> STANDARD[CertValue(c)] == c
  {
    hide STANDARD, URL_SAFE, From64, CertValue;
    Places(0);
    if c in STANDARD {
      var v :| 0 <= v < |STANDARD| && STANDARD[v] == c;
      Places(v);
    }
    if c in URL_SAFE {
      var v :| 0 <= v < |URL_SAFE| && URL_SAFE[v] == c;
      Places(v);
    }
    ValueFound(c);
  }

  lemma ValueFound(c: char)
    ensures |STANDARD| == |URL_SAFE| == 64
    ensures CertValue(c) >= 0 ==> STANDARD[CertValue(c)] == c
    ensures From64(c) >= 0 ==> c == STANDARD[From64(c)] || c == URL_SAFE[From64(c)]
  {
    hide UPPER, LOWER, STANDARD, URL_SAFE;
    Pieces();
    var v := From64(c);
    if 0 <= v < 26 { Upper(v); } else if 26 <= v < 52 { Lower(v - 26); } else if 52 <= v < 62 { Decimal(v - 52); }
  }

  // ----- Encoding -----

  lemma Padding(n: nat, m: nat)
    requires 8 * n <= 6 * m < 8 * n + 6
    ensures m == EncodedLength(n) && PadBits(n) == 6 * m - 8 * n && TwoTo(PadBits(n)) == Pow2(6 * m - 8 * n)
  {
    assert n == 3 * (n / 3) + n % 3;
    assert Pow2(2) == 4 && Pow2(4) == 16;
  }

  /** The text of some bytes: the fewest characters with room for all the bits, each one the place in the URL-safe
      alphabet of a base-64 digit of the bytes' number, completed by zero bits. */
  lemma EncodedText(data: seq<byte>, ds: seq<int>)
    requires 8 * |data| <= 6 * |ds| < 8 * |data| + 6 && forall i :: 0 <= i < |ds| ==> 0 <= ds[i] < 64
    requires Num(ds, 64) == Num(data, 256) * Pow2(6 * |ds| - 8 * |data|)
    ensures |URL_SAFE| == 64 && |Text(Sextets(data))| == |ds| == EncodedLength(|data|)
    ensures forall i :: 0 <= i < |ds| ==> Text(Sextets(data))[i] == URL_SAFE[ds[i]]
  {
    hide Num, Pow2, TwoTo, PadBits, EncodedLength, Sextets, Char64, URL_SAFE, STANDARD;
    EncodeNumber(data);
    Padding(|data|, |ds|);
    NumInjective(ds, Sextets(data), 64);
    Places(0);
    forall i | 0 <= i < |ds|
      ensures Text(Sextets(data))[i] == URL_SAFE[ds[i]]
    {
      Places(ds[i]);
    }
  }

  // ----- Decoding -----

  /** The bytes are the leading bits of the number the sextets write, as many whole bytes as there are. */
  ghost predicate LeadingBytes(vs: seq<int>, bytes: seq<byte>) {
    8 * |bytes| <= 6 * |vs| < 8 * |bytes| + 8
    && Num(bytes, 256) == Num(vs, 64) / Pow2(6 * |vs| - 8 * |bytes|)
  }

  lemma LeadingOnly(vs: seq<int>, bytes: seq<byte>, other: seq<byte>)
    requires LeadingBytes(vs, bytes) && LeadingBytes(vs, other)
    ensures bytes == other
  {
    hide Num, Pow2;
    NumInjective(bytes, other, 256);
  }

  lemma DecodeLeads(vs: seq<sextet>)
    ensures LeadingBytes(vs, Decode(vs).bytes)
  {
    hide Num, Decode, Pow2;
    DecodeNumber(vs);
    var d := Decode(vs);
    CountPower(d.count);
    Leading(Num(d.bytes, 256), d.rem, d.count);
  }

  lemma CountPower(count: int)
    requires count in {0, 2, 4, 6}
    ensures TwoTo(count) == Pow2(count)
  {
    assert Pow2(2) == 4 && Pow2(4) == 16 && Pow2(6) == 64;
  }

  lemma Leading(x: int, r: int, count: int)
    requires count in {0, 2, 4, 6} && 0 <= r < TwoTo(count)
    ensures (Shifted(x, count) + r) / TwoTo(count) == x
  {
  }

  /** The text up to the first '=' or NUL, read in either alphabet: its sextets give the bytes. */
  lemma DecodedText(text: string, body: string, rest: string, vs: seq<int>)
    requires text == body + rest && (rest == "" || rest[0] in {'=', '\0'})
    requires |STANDARD| == |URL_SAFE| == 64 && |vs| == |body|
    requires forall i :: 0 <= i < |body| ==>
               0 <= vs[i] < 64 && (body[i] == STANDARD[vs[i]] || body[i] == URL_SAFE[vs[i]])
    ensures Decoded(Some(text)).Some? && LeadingBytes(vs, Decoded(Some(text)).value)
  {
    hide Num, Decode, Pow2, STANDARD, URL_SAFE, From64, Body;
    forall i | 0 <= i < |body|
      ensures From64(body[i]) == vs[i] && text[i] != '=' && text[i] != '\0'
    {
      Places(vs[i]);
    }
    BodyPrefix(text, |body|);
    assert text[..|body|] == body;
    assert Values(body) == vs;
    DecodeLeads(vs);
  }

  /** A character of neither alphabet before the end makes the text undecodable. */
  lemma BadText(text: string, k: nat)
    requires k < |text| && text[k] !in STANDARD && text[k] !in URL_SAFE
    requires forall i :: 0 <= i <= k ==> text[i] !in {'=', '\0'}
    ensures Decoded(Some(text)).None?
  {
    hide Decode, STANDARD, URL_SAFE, From64, Body;
    Values64(text[k]);
    PrefixOfBody(text, k + 1);
    assert Body(text)[k] == text[..k + 1][k];
  }

  /** The certificate decoder reads the characters of the standard alphabet, wherever they stand, and no others. */
  lemma KeptText(text: string, at: seq<nat>, vs: seq<int>)
    requires |STANDARD| == 64 && KeptAt(text, at, vs)
    ensures LeadingBytes(vs, Decode(Kept(text)).bytes)
  {
    hide LeadingBytes, Decode, STANDARD, KeptAt;
    KeptIs(text, at, vs);
    DecodeLeads(vs);
  }

  /** The positions of the characters of the standard alphabet, in order, and their sextets. */
  ghost predicate KeptAt(text: string, at: seq<nat>, vs: seq<int>)
    requires |STANDARD| == 64
  {
    && |vs| == |at| && (forall j, k :: 0 <= j < k < |at| ==> at[j] < at[k])
    && (forall i :: 0 <= i < |text| ==> (text[i] in STANDARD <==> i in at))
    && forall j :: 0 <= j < |at| ==> at[j] < |text| && 0 <= vs[j] < 64 && text[at[j]] == STANDARD[vs[j]]
  }

  lemma {:induction false} KeptIs(text: string, at: seq<nat>, vs: seq<int>)
    requires |STANDARD| == 64 && KeptAt(text, at, vs)
    ensures Kept(text) == vs
    decreases |text|
  {
    hide STANDARD, CertValue, KeptAt;
    if text == "" {
      NoneKept(at, vs);
    } else {
      var n := |text| - 1;
      Values64(text[n]);
      if text[n] in STANDARD {
        var m := |at| - 1;
        LastKept(text, at, vs);
        Places(vs[m]);
        KeptIs(text[..n], at[..m], vs[..m]);
      } else {
        LastDropped(text, at, vs);
        KeptIs(text[..n], at, vs);
      }
    }
  }

  lemma NoneKept(at: seq<nat>, vs: seq<int>)
    requires |STANDARD| == 64 && KeptAt("", at, vs)
    ensures vs == []
  {
    hide STANDARD;
    var padded := at + [0];
    assert padded[0] >= 0;
  }

  lemma LastDropped(text: string, at: seq<nat>, vs: seq<int>)
    requires |STANDARD| == 64 && KeptAt(text, at, vs) && text != "" && text[|text| - 1] !in STANDARD
    ensures KeptAt(text[..|text| - 1], at, vs)
  {
    hide STANDARD;
    var n := |text| - 1;
    forall j | 0 <= j < |at|
      ensures at[j] < n
    {
      assert at[j] in at;
    }
  }

  lemma LastKept(text: string, at: seq<nat>, vs: seq<int>)
    requires |STANDARD| == 64 && KeptAt(text, at, vs) && text != "" && text[|text| - 1] in STANDARD
    ensures |vs| == |at| > 0 && 0 <= vs[|at| - 1] < 64 && STANDARD[vs[|at| - 1]] == text[|text| - 1]
    ensures KeptAt(text[..|text| - 1], at[..|at| - 1], vs[..|at| - 1])
    ensures vs == vs[..|at| - 1] + [vs[|at| - 1]]
  {
    hide STANDARD;
    var n := |text| - 1;
    var j :| 0 <= j < |at| && at[j] == n;
    var m := |at| - 1;
    assert j == m;
    forall i | 0 <= i < n
      ensures i in at <==> i in at[..m]
    {
      if i in at {
        var k :| 0 <= k < |at| && at[k] == i;
        assert at[..m][k] == i;
      }
    }
    forall k | 0 <= k < m
      ensures at[k] < n
    {
      assert at[k] < at[m];
    }
  }
}
