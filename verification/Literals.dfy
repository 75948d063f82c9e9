/** T0Comp.TryParseLiteral: integer literals parsed with a wrapping 32-bit accumulator and an overflow flag. */
module Literals {
  import opened Machine32
  import opened Digits

  /** Outcome: a string or character constant, not a literal, an integer, or the overflow exception. */
  datatype Parse = Quoted | NotNumber | Number(v: i32) | Overflow

  /** HexVal */
  function HexVal(c: char): int {
    if '0' <= c <= '9' then (c as int) - ('0' as int)
    else if 'A' <= c <= 'F' then (c as int) - ('A' as int) + 10
    else if 'a' <= c <= 'f' then (c as int) - ('a' as int) + 10
    else -1
  }

  /** Sign, radix and digits of a token. */
  datatype Token = Token(neg: bool, radix: int, digits: string)

  function Unsigned(neg: bool, t: string): Token {
    if "0x" <= t || "0X" <= t then Token(neg, 16, t[2..])
    else if "0b" <= t || "0B" <= t then Token(neg, 2, t[2..])
    else Token(neg, 10, t)
  }

  function Split(t: string): Token {
    if "-" <= t then Unsigned(true, t[1..])
    else if "+" <= t then Unsigned(false, t[1..])
    else Unsigned(false, t)
  }

  /** Every character is a digit of the radix. */
  predicate AllDigits(s: string, radix: int) {
    forall i :: 0 <= i < |s| ==> 0 <= HexVal(s[i]) < radix
  }

  /** The number a digit string denotes. */
  function Value(s: string, radix: int): int
    requires AllDigits(s, radix)
  {
    if s == [] then 0 else Value(s[..|s| - 1], radix) * radix + HexVal(s[|s| - 1])
  }

  /** The meaning of a token as an integer, when it has one. */
  function Meaning(t: Token): int
    requires AllDigits(t.digits, t.radix)
  {
    if t.neg then -Value(t.digits, t.radix) else Value(t.digits, t.radix)
  }

  // ----- What a token says, without taking it apart -----

  ghost predicate RadixPrefix(radix: int, prefix: string) {
    (radix == 10 && prefix == "") || (radix == 16 && prefix in {"0x", "0X"}) || (radix == 2 && prefix in {"0b", "0B"})
  }

  /** The characters are the digits `ds` of the radix, each one found by its place among the sixteen. */
  ghost predicate DigitsAre(s: string, radix: int, ds: seq<int>) {
    && s != "" && |ds| == |s|
    && forall i :: 0 <= i < |s| ==>
         0 <= ds[i] < radix <= 16 && (s[i] == "0123456789ABCDEF"[ds[i]] || s[i] == "0123456789abcdef"[ds[i]])
  }

  /** The token is an optional sign, the prefix of a radix, and digits of that radix. */
  ghost predicate Spells(tt: string, sign: string, prefix: string, radix: int, s: string, ds: seq<int>) {
    tt == sign + prefix + s && sign in {"", "+", "-"} && RadixPrefix(radix, prefix) && DigitsAre(s, radix, ds)
  }

  lemma DigitChar(c: char, d: int)
    requires 0 <= d < 16
    ensures c == "0123456789ABCDEF"[d] || c == "0123456789abcdef"[d] <==> HexVal(c) == d
  {
    assert d in {0, 1, 2, 3, 4, 5, 6, 7} || d in {8, 9, 10, 11, 12, 13, 14, 15};
  }

  lemma DigitsIff(s: string, radix: int, ds: seq<int>)
    requires radix <= 16
    ensures DigitsAre(s, radix, ds) <==>
              s != "" && |ds| == |s| && AllDigits(s, radix) && forall i :: 0 <= i < |s| ==> ds[i] == HexVal(s[i])
  {
    hide HexVal;
    forall i | 0 <= i < |s| && |ds| == |s| && 0 <= ds[i] < 16
      ensures s[i] == "0123456789ABCDEF"[ds[i]] || s[i] == "0123456789abcdef"[ds[i]] <==> HexVal(s[i]) == ds[i]
    {
      DigitChar(s[i], ds[i]);
    }
  }

  lemma {:induction false} ValueIsNum(s: string, radix: int, ds: seq<int>)
    requires AllDigits(s, radix) && |ds| == |s| && forall i :: 0 <= i < |s| ==> ds[i] == HexVal(s[i])
    ensures Value(s, radix) == Num(ds, radix)
    decreases |s|
  {
    hide HexVal;
    if s != "" {
      ValueIsNum(s[..|s| - 1], radix, ds[..|s| - 1]);
    }
  }

  lemma PrefixTaken(neg: bool, prefix: string, radix: int, s: string)
    requires RadixPrefix(radix, prefix) && s != "" && AllDigits(s, radix)
    ensures Unsigned(neg, prefix + s) == Token(neg, radix, s)
    ensures (prefix + s)[0] !in {'-', '+', '"', '`'}
  {
    hide Unsigned, AllDigits, HexVal;
    if radix == 10 {
      assert prefix + s == s;
      DecimalHead(s);
      UnsignedParts(neg, s);
    } else {
      assert (prefix + s)[..2] == prefix && (prefix + s)[2..] == s;
      UnsignedParts(neg, prefix + s);
      assert (prefix + s)[0] == prefix[0] == '0';
    }
  }

  lemma DecimalHead(s: string)
    requires s != "" && AllDigits(s, 10)
    ensures s[0] !in {'-', '+', '"', '`'}
    ensures |s| >= 2 ==> s[..2] !in {"0x", "0X", "0b", "0B"}
  {
    assert 0 <= HexVal(s[0]) < 10;
    if |s| >= 2 {
      assert 0 <= HexVal(s[1]) < 10;
      assert s[..2][1] == s[1];
    }
  }

  /** The prefix test on the first two characters. */
  lemma UnsignedParts(neg: bool, t: string)
    ensures var head := if |t| >= 2 then t[..2] else "";
            var u := Unsigned(neg, t);
            && u.neg == neg
            && (u.radix == 16 <==> head in {"0x", "0X"}) && (u.radix == 2 <==> head in {"0b", "0B"})
            && (u.radix in {2, 16} ==> |t| >= 2 && u.digits == t[2..])
            && (u.radix !in {2, 16} ==> u.radix == 10 && u.digits == t)
  {
    if |t| >= 2 {
      var head := t[..2];
      assert t == head + t[2..] && head == [t[0], t[1]];
      assert "0x" <= t <==> head == "0x";
      assert "0X" <= t <==> head == "0X";
      assert "0b" <= t <==> head == "0b";
      assert "0B" <= t <==> head == "0B";
    }
  }

  lemma SignTaken(sign: string, t: string)
    requires sign in {"", "+", "-"} && t != "" && t[0] !in {'-', '+', '"', '`'}
    ensures Split(sign + t) == Unsigned(sign == "-", t)
    ensures !("\"" <= sign + t) && !("`" <= sign + t)
  {
    hide Unsigned;
    assert (sign + t)[|sign|..] == t;
  }

  /** A token that spells a number is taken apart into just that sign, radix and number. */
  lemma SpelledSplit(tt: string, sign: string, prefix: string, radix: int, s: string, ds: seq<int>)
    requires Spells(tt, sign, prefix, radix, s, ds)
    ensures Split(tt) == Token(sign == "-", radix, s) && s != "" && AllDigits(s, radix)
    ensures Value(s, radix) == Num(ds, radix) && !("\"" <= tt) && !("`" <= tt)
  {
    hide Num, Value, Split, Unsigned, AllDigits, DigitsAre;
    DigitsIff(s, radix, ds);
    ValueIsNum(s, radix, ds);
    PrefixTaken(sign == "-", prefix, radix, s);
    SignTaken(sign, prefix + s);
    assert tt == sign + (prefix + s);
  }

  /** A token whose digits all belong to its radix spells a number. */
  lemma SplitSpelled(tt: string) returns (sign: string, prefix: string, ds: seq<int>)
    requires Split(tt).digits != "" && AllDigits(Split(tt).digits, Split(tt).radix)
    ensures Spells(tt, sign, prefix, Split(tt).radix, Split(tt).digits, ds)
  {
    hide HexVal, Unsigned, Split, AllDigits, DigitsAre;
    var t := Split(tt);
    var rest;
    sign, rest := SplitSigned(tt);
    prefix := UnsignedSpelled(sign == "-", rest);
    assert tt == sign + prefix + t.digits;
    ds := DigitValues(t.digits);
    DigitsIff(t.digits, t.radix, ds);
  }

  lemma SplitSigned(tt: string) returns (sign: string, rest: string)
    ensures sign in {"", "+", "-"} && tt == sign + rest && Split(tt) == Unsigned(sign == "-", rest)
  {
    hide Unsigned;
    sign := if "-" <= tt then "-" else if "+" <= tt then "+" else "";
    rest := tt[|sign|..];
  }

  lemma UnsignedSpelled(neg: bool, t: string) returns (prefix: string)
    ensures var u := Unsigned(neg, t); RadixPrefix(u.radix, prefix) && t == prefix + u.digits
  {
    hide Unsigned;
    UnsignedParts(neg, t);
    prefix := if Unsigned(neg, t).radix == 10 then "" else t[..2];
  }

  function DigitValues(s: string): (ds: seq<int>)
    ensures |ds| == |s| && forall i :: 0 <= i < |s| ==> ds[i] == HexVal(s[i])
  {
    seq(|s|, i requires 0 <= i < |s| => HexVal(s[i]))
  }

  /** The outcome in terms of the parts of the token. */
  ghost predicate ParsedAs(tt: string, r: Parse) {
    var t := Split(tt);
    if "\"" <= tt || "`" <= tt then r == Quoted
    else if t.digits == [] || !AllDigits(t.digits, t.radix) then r == NotNumber
    else if -M31 <= Meaning(t) < M32 then r == Number(I32(U32(Meaning(t))))
    else r == Overflow
  }

  /** The number of a spelled token. */
  function Signed(sign: string, x: int): int { if sign == "-" then -x else x }

  /** What that outcome says of any way to spell the token. */
  lemma OutcomeSpelled(tt: string, r: Parse, sign: string, prefix: string, radix: int, s: string, ds: seq<int>)
    requires ParsedAs(tt, r) && Spells(tt, sign, prefix, radix, s, ds)
    ensures var v := Signed(sign, Num(ds, radix));
            if -0x8000_0000 <= v < 0x1_0000_0000
              then r == Number(if v >= 0x8000_0000 then v - 0x1_0000_0000 else v)
              else r == Overflow
  {
    hide Split, AllDigits, Value, Num, Spells;
    SpelledSplit(tt, sign, prefix, radix, s, ds);
  }

  lemma OutcomeNumber(tt: string, r: Parse)
    requires ParsedAs(tt, r)
    ensures r == Quoted <==> "\"" <= tt || "`" <= tt
    ensures r == NotNumber <==>
              r != Quoted && !exists sign, prefix, radix, s, ds :: Spells(tt, sign, prefix, radix, s, ds)
  {
    hide Split, Value, Spells, AllDigits, U32, I32;
    var t := Split(tt);
    if r != Quoted && t.digits != "" && AllDigits(t.digits, t.radix) {
      var sign, prefix, ds := SplitSpelled(tt);
      assert Spells(tt, sign, prefix, t.radix, t.digits, ds);
    }
    forall sign, prefix, radix, s, ds | Spells(tt, sign, prefix, radix, s, ds)
      ensures r != NotNumber
    {
      SpelledSplit(tt, sign, prefix, radix, s, ds);
    }
  }

  // ----- The code -----

  /** After some digits: the flag is raised exactly when their number has left 32 bits, and without it the accumulator
      is exact. */
  ghost predicate Running(s: string, radix: int, acc: u32, overflow: bool) {
    && AllDigits(s, radix) && Value(s, radix) >= 0
    && if overflow then Value(s, radix) >= M32 else acc == Value(s, radix)
  }

  /** One more digit keeps it so. */
  lemma DigitTaken(digits: string, i: nat, radix: int, acc: u32, overflow: bool)
    requires i < |digits| && Running(digits[..i], radix, acc, overflow) && radix in {2, 10, 16}
    requires 0 <= HexVal(digits[i]) < radix
    ensures var d, low := HexVal(digits[i]), U32(acc * radix);
            var raised := overflow || acc > (M32 - 1) / radix || d > M32 - 1 - low;
            Running(digits[..i + 1], radix, U32(low + d), raised)
  {
    hide HexVal, U32;
    assert digits[..i + 1][..i] == digits[..i];
    DigitStep(Value(digits[..i], radix), acc, radix, HexVal(digits[i]), overflow);
  }

  lemma BadDigit(digits: string, i: nat, radix: int)
    requires i < |digits| && !(0 <= HexVal(digits[i]) < radix)
    ensures !AllDigits(digits, radix)
  {
  }

  lemma SplitRadix(tt: string)
    ensures Split(tt).radix in {2, 10, 16}
  {
  }

  /** The sign is applied to the wrapped accumulator, with one more value on the negative side. */
  lemma SignApplied(t: Token, acc: u32, overflow: bool)
    requires Running(t.digits, t.radix, acc, overflow)
    ensures -M31 <= (if t.neg then I32(U32(-I32(acc))) else I32(acc)) < M31
    ensures if overflow || (t.neg && acc > M31) then !(-M31 <= Meaning(t) < M32)
            else -M31 <= Meaning(t) < M32
                 && (if t.neg then I32(U32(-I32(acc))) else I32(acc)) == I32(U32(Meaning(t)))
  {
    hide Value, AllDigits;
  }

  /** The parser's loop. */
  method ParseToken(tt: string) returns (r: Parse)
    ensures ParsedAs(tt, r)
  {
    hide Split, HexVal, U32, I32, Value, AllDigits, Running, Meaning;
    if "\"" <= tt || "`" <= tt {
      return Quoted;
    }
    var t := Split(tt);
    SplitRadix(tt);
    var radix, digits := t.radix, t.digits;
    if |digits| == 0 {
      return NotNumber;
    }
    var acc: u32, overflow := 0, false;
    var maxV := (M32 - 1) / radix;
    NoDigits(radix);
    for i := 0 to |digits|
      invariant Running(digits[..i], radix, acc, overflow)
    {
      var d := HexVal(digits[i]);
      if d < 0 || d >= radix {
        BadDigit(digits, i, radix);
        return NotNumber;
      }
      DigitTaken(digits, i, radix, acc, overflow);
      if acc > maxV {
        overflow := true;
      }
      acc := U32(acc * radix);
      if d > M32 - 1 - acc {
        overflow := true;
      }
      acc := U32(acc + d);
    }
    assert digits[..|digits|] == digits;
    AllTaken(digits, radix, acc, overflow);
    SignApplied(t, acc, overflow);
    var x := I32(acc);
    if t.neg {
      if acc > M31 {
        overflow := true;
      }
      x := I32(U32(-x));
    }
    if overflow {
      return Overflow;
    }
    return Number(x);
  }

  lemma NoDigits(radix: int)
    ensures Running("", radix, 0, false)
  {
  }

  lemma AllTaken(digits: string, radix: int, acc: u32, overflow: bool)
    requires Running(digits, radix, acc, overflow)
    ensures AllDigits(digits, radix)
  {
  }

  /** Quoted constants are recognised by their first character. A token is a number exactly when it is an optional
      sign, an optional radix prefix and at least one digit of that radix; the result is the number read modulo 2^32,
      and overflow is reported exactly when the number is outside -2^31 to 2^32 - 1. */
  method TryParseLiteral(tt: string) returns (r: Parse)
    ensures r == Quoted <==> "\"" <= tt || "`" <= tt
    ensures r == NotNumber <==>
              r != Quoted && !exists sign, prefix, radix, s, ds :: Spells(tt, sign, prefix, radix, s, ds)
    ensures forall sign, prefix, radix, s, ds :: Spells(tt, sign, prefix, radix, s, ds) ==>
              var v := if sign == "-" then -Num(ds, radix) else Num(ds, radix);
              if -0x8000_0000 <= v < 0x1_0000_0000
                then r == Number(if v >= 0x8000_0000 then v - 0x1_0000_0000 else v)
                else r == Overflow
    ensures ParsedAs(tt, r)
  {
    r := ParseToken(tt);
    hide ParsedAs, Spells, Num;
    OutcomeNumber(tt, r);
    forall sign, prefix, radix, s, ds | Spells(tt, sign, prefix, radix, s, ds)
      ensures var v := Signed(sign, Num(ds, radix));
              if -0x8000_0000 <= v < 0x1_0000_0000
                then r == Number(if v >= 0x8000_0000 then v - 0x1_0000_0000 else v)
                else r == Overflow
    {
      OutcomeSpelled(tt, r, sign, prefix, radix, s, ds);
    }
  }

  /** One digit: the flag is raised exactly when the number leaves 32 bits, and without it the accumulator is exact. */
  lemma DigitStep(v: int, acc: u32, radix: int, d: int, overflow: bool)
    requires v >= 0 && (radix == 2 || radix == 10 || radix == 16) && 0 <= d < radix
    requires if overflow then v >= M32 else acc == v
    ensures var raised := overflow || acc > (M32 - 1) / radix || d > M32 - 1 - U32(acc * radix);
            if raised then v * radix + d >= M32 else U32(U32(acc * radix) + d) == v * radix + d
  {
    if overflow {
      assert v * radix >= v;
    } else if acc <= (M32 - 1) / radix {
      assert acc * radix < M32;
      U32Identity(acc * radix);
    } else {
      assert acc * radix >= M32;
    }
  }
}
