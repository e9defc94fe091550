/**
  * Variable-length integers of the Protocol Buffers wire format as nanopb writes and reads them
  * (pb_encode.c, pb_decode.c), and the zigzag mapping of signed numbers.
  */
module Varint {
  import opened Bits
  import opened Bytes

  const TWO7: nat := 0x80
  const TWO31: nat := 0x8000_0000
  const TWO32: nat := 0x1_0000_0000
  const TWO63: nat := 0x8000_0000_0000_0000
  const TWO64: nat := 0x1_0000_0000_0000_0000

  /** A value read from the front of a byte string, and what is left; `Eof` when there was nothing to read. */
  datatype Parse<+T> = Ok(value: T, rest: seq<byte>) | Eof | Fail

  /** The canonical encoding: seven bits a byte from the lowest, the top bit of every byte but the last set. */
  function Encode(v: nat): (s: seq<byte>)
    ensures s != []
  {
    if v < 0x80 then [v] else [0x80 + v % 0x80] + Encode(v / 0x80)
  }

  /** pb_decode_varint, from bit position `bitpos` on with `result` so far; 64 bits wide. */
  function DecodeFrom(bs: seq<byte>, bitpos: nat, result: nat): Parse<nat>
    decreases |bs|
  {
    if bitpos >= 64 then Fail
    else if bs == [] then Fail
    else
      var b := bs[0];
      var result' := Or(result, Shl(b % 0x80, bitpos, 64));
      if b >= 0x80 then DecodeFrom(bs[1..], bitpos + 7, result') else Ok(result', bs[1..])
  }

  /** pb_decode_varint */
  function Decode(bs: seq<byte>): Parse<nat> {
    DecodeFrom(bs, 0, 0)
  }

  /** The loop of pb_decode_varint32_eof; `bitpos` is an 8-bit number, `result` a 32-bit one. */
  function Decode32From(bs: seq<byte>, bitpos: nat, result: nat): Parse<nat>
    decreases |bs|
  {
    if bs == [] then Fail
    else
      var b := bs[0];
      var signExtension := if bitpos < 63 then 0xFF else 0x01;
      if bitpos >= 32 && b % 0x80 != 0 && (result / TWO31 == 0 || b != signExtension) then Fail
      else
        var result' := if bitpos >= 32 then result else Or(result, Shl(b % 0x80, bitpos, 32));
        var bitpos' := (bitpos + 7) % 0x100;
        if b >= 0x80 then Decode32From(bs[1..], bitpos', result')
        else if bitpos' == 35 && b / 0x10 % 8 != 0 then Fail
        else Ok(result', bs[1..])
  }

  /** pb_decode_varint32_eof */
  function Decode32(bs: seq<byte>): Parse<nat> {
    if bs == [] then Eof
    else if bs[0] < 0x80 then Ok(bs[0], bs[1..])
    else Decode32From(bs[1..], 7, bs[0] % 0x80)
  }

  /** Bytes that are put above those that are there add up. */
  lemma OrAbove(r: nat, g: nat, k: nat, w: nat)
    requires r < Pow2(k) && g * Pow2(k) < Pow2(w)
    ensures Or(r, Shl(g, k, w)) == r + g * Pow2(k)
  {
    ShlSmall(g, k, w);
    OrIsSum(g, r, k);
    OrCommutes(r, g * Pow2(k));
  }

  lemma {:induction false} OrCommutes(a: nat, b: nat)
    ensures Or(a, b) == Or(b, a)
  {
    if a == 0 {
      OrZero(b);
    } else if b == 0 {
      OrZero(a);
    } else {
      OrCommutes(a / 2, b / 2);
    }
  }

  lemma Pow2Step7(k: nat)
    ensures Pow2(k + 7) == 0x80 * Pow2(k)
  {
    assert Pow2(k + 7) == 2 * Pow2(k + 6) && Pow2(k + 6) == 2 * Pow2(k + 5) && Pow2(k + 5) == 2 * Pow2(k + 4);
    assert Pow2(k + 4) == 2 * Pow2(k + 3) && Pow2(k + 3) == 2 * Pow2(k + 2) && Pow2(k + 2) == 2 * Pow2(k + 1);
    assert Pow2(k + 1) == 2 * Pow2(k);
  }

  /** One seven-bit digit: what it adds, and what stays above it. */
  lemma DigitStep(v: nat, p: nat, result: nat)
    requires result < p
    ensures v * p == v % 0x80 * p + v / 0x80 * (0x80 * p)
    ensures v % 0x80 * p <= v * p && v / 0x80 * (0x80 * p) <= v * p
    ensures result + v % 0x80 * p < 0x80 * p
  {
    var g, h := v % 0x80, v / 0x80;
    assert v == g + 0x80 * h;
    assert (g + 0x80 * h) * p == g * p + h * (0x80 * p);
    assert g * p <= 0x7f * p by {
      assert (0x7f - g) * p >= 0;
    }
  }

  lemma BitposInRange(v: nat, bitpos: nat)
    requires v > 0 && v * Pow2(bitpos) < Pow2(64)
    ensures bitpos < 64
  {
    if bitpos >= 64 {
      Pow2Monotonic(64, bitpos);
      MulAtLeast(Pow2(bitpos), v);
      assert false;
    }
  }

  /** One turn of the decoder on an encoding */
  lemma DecodeTurn(v: nat, bitpos: nat, result: nat, rest: seq<byte>)
    requires bitpos < 64
    ensures var result' := Or(result, Shl(v % 0x80, bitpos, 64));
            DecodeFrom(Encode(v) + rest, bitpos, result)
            == if v < 0x80 then Ok(result', rest) else DecodeFrom(Encode(v / 0x80) + rest, bitpos + 7, result')
  {
    hide Or, Shl;
    var s := Encode(v) + rest;
    assert s[1..] == if v < 0x80 then rest else Encode(v / 0x80) + rest;
  }

  lemma {:induction false} DecodeEncodeFrom(v: nat, bitpos: nat, result: nat, rest: seq<byte>)
    requires result < Pow2(bitpos) && v * Pow2(bitpos) < Pow2(64) && (v > 0 || bitpos == 0)
    ensures DecodeFrom(Encode(v) + rest, bitpos, result) == Ok(result + v * Pow2(bitpos), rest)
    decreases v
  {
    hide Or, Shl, Pow2, DecodeFrom, Encode;
    if v > 0 {
      BitposInRange(v, bitpos);
    }
    DecodeTurn(v, bitpos, result, rest);
    DigitStep(v, Pow2(bitpos), result);
    OrAbove(result, v % 0x80, bitpos, 64);
    if v >= 0x80 {
      Pow2Step7(bitpos);
      DecodeEncodeFrom(v / 0x80, bitpos + 7, result + v % 0x80 * Pow2(bitpos), rest);
    }
  }

  lemma WordSizes()
    ensures Pow2(31) == TWO31 && Pow2(32) == TWO32 && Pow2(63) == TWO63 && Pow2(64) == TWO64
  {
    Pow2Step8(0);
    Pow2Step8(8);
    Pow2Step8(16);
    Pow2Step8(24);
    Pow2Step8(32);
    Pow2Step8(40);
    Pow2Step8(48);
    Pow2Step8(56);
  }

  /** Decoding undoes encoding for every 64-bit number, and leaves the rest of the stream. */
  lemma DecodeEncode(v: nat, rest: seq<byte>)
    requires v < TWO64
    ensures Decode(Encode(v) + rest) == Ok(v, rest)
  {
    hide DecodeFrom;
    WordSizes();
    DecodeEncodeFrom(v, 0, 0, rest);
  }

  lemma {:induction false} EncodeLength(v: nat, k: nat)
    requires v < Pow2(7 * k) && k > 0
    ensures |Encode(v)| <= k
  {
    if v >= 0x80 {
      Pow2Step7(7 * (k - 1));
      assert k > 1 by { Pow2Step7(0); }
      EncodeLength(v / 0x80, k - 1);
    }
  }

  /** No 64-bit number takes more than ten bytes. */
  lemma TenBytes(v: nat)
    requires v < TWO64
    ensures |Encode(v)| <= 10
  {
    hide Encode;
    WordSizes();
    Pow2Monotonic(64, 70);
    EncodeLength(v, 10);
  }

  // Any encoding, with digits to spare or too many

  /** The digits of a number up to the first without the top bit, which is the last */
  predicate Terminated(s: seq<byte>) {
    s != [] && if |s| == 1 then s[0] < 0x80 else s[0] >= 0x80 && Terminated(s[1..])
  }

  function Digits(s: seq<byte>): nat {
    if s == [] then 0 else s[0] % 0x80 + 0x80 * Digits(s[1..])
  }

  /** What a digit at the top position adds: only its lowest bit is within 64 bits. */
  lemma TopDigit(d: nat, result: nat)
    requires d < 0x80 && result < Pow2(63)
    ensures Or(result, Shl(d, 63, 64)) == (result + d * Pow2(63)) % TWO64
  {
    hide Or, Pow2;
    WordSizes();
    var low := d % 2;
    ModUnique(d * TWO63, TWO64, d / 2, low * TWO63);
    ModUnique(low * TWO63, TWO64, 0, low * TWO63);
    assert Shl(d, 63, 64) == Shl(low, 63, 64);
    OrAbove(result, low, 63, 64);
    ModUnique(result + d * TWO63, TWO64, d / 2, result + low * TWO63);
  }

  /** What a digit below that adds */
  lemma MiddleDigit(d: nat, bitpos: nat, result: nat)
    requires d < 0x80 && bitpos <= 56 && result < Pow2(bitpos)
    ensures Or(result, Shl(d, bitpos, 64)) == result + d * Pow2(bitpos) < Pow2(bitpos + 7) < TWO64
  {
    hide Or, Shl;
    WordSizes();
    Pow2Step7(bitpos);
    Pow2Monotonic(bitpos + 7, 63);
    DigitStep(d, Pow2(bitpos), result);
    OrAbove(result, d, bitpos, 64);
  }

  lemma {:induction false} DecodeDigits(s: seq<byte>, k: nat, result: nat, rest: seq<byte>)
    requires Terminated(s) && k <= 9 && result < Pow2(7 * k)
    ensures DecodeFrom(s + rest, 7 * k, result)
            == if k + |s| <= 10 then Ok((result + Digits(s) * Pow2(7 * k)) % TWO64, rest) else Fail
    decreases |s|
  {
    hide Or, Shl, Pow2;
    var d: nat := s[0] % 0x80;
    assert (s + rest)[1..] == s[1..] + rest;
    if k < 9 {
      MiddleDigit(d, 7 * k, result);
      if |s| > 1 {
        DecodeDigits(s[1..], k + 1, result + d * Pow2(7 * k), rest);
        Pow2Step7(7 * k);
        MoreDigits(d, Digits(s[1..]), Pow2(7 * k));
      }
    } else {
      TopDigit(d, result);
    }
  }

  lemma MoreDigits(d: nat, more: nat, p: nat)
    ensures (d + 0x80 * more) * p == d * p + more * (0x80 * p)
  {
    assert 0x80 * more * p == more * (0x80 * p);
  }

  /** Any encoding of up to ten bytes is read as its number to 64 bits; a longer one is refused. */
  lemma DecodeAny(s: seq<byte>, rest: seq<byte>)
    requires Terminated(s)
    ensures Decode(s + rest) == if |s| <= 10 then Ok(Digits(s) % TWO64, rest) else Fail
  {
    hide DecodeFrom, Digits;
    DecodeDigits(s, 0, 0, rest);
  }

  /** Bytes that do not come to an end are refused. */
  lemma {:induction false} DecodeCut(bs: seq<byte>, bitpos: nat, result: nat)
    requires forall i | 0 <= i < |bs| :: bs[i] >= 0x80
    ensures DecodeFrom(bs, bitpos, result) == Fail
    decreases |bs|
  {
    if bs != [] && bitpos < 64 {
      DecodeCut(bs[1..], bitpos + 7, Or(result, Shl(bs[0] % 0x80, bitpos, 64)));
    }
  }

  // The 32-bit decoder

  lemma Decode32Small(v: nat, rest: seq<byte>)
    requires v < TWO32
    ensures Decode32(Encode(v) + rest) == Ok(v, rest)
  {
    hide Decode32From, Pow2;
    assert (Encode(v) + rest)[0] == Encode(v)[0];
    if v < 0x80 {
      assert (Encode(v) + rest)[1..] == rest;
    } else {
      SevenBits();
      Decode32EncodeFrom(v / 0x80, 7, v % 0x80, rest);
      assert (Encode(v) + rest)[1..] == Encode(v / 0x80) + rest;
    }
  }

  /** The low digits of a number, up to bit 32, are read as by the 64-bit decoder. */
  lemma {:induction false} Decode32EncodeFrom(v: nat, bitpos: nat, result: nat, rest: seq<byte>)
    requires bitpos in {7, 14, 21, 28} && result < Pow2(bitpos) && v > 0 && v * Pow2(bitpos) < TWO32
    ensures Decode32From(Encode(v) + rest, bitpos, result) == Ok(result + v * Pow2(bitpos), rest)
    decreases v
  {
    hide Or, Shl, Pow2, Decode32From, Encode;
    assert bitpos == 28 ==> v < 0x10 by { Pow2At28(); }
    DigitStep(v, Pow2(bitpos), result);
    if v >= 0x80 {
      Decode32Digit(v, bitpos, result, rest);
      Pow2Step7(bitpos);
      Decode32EncodeFrom(v / 0x80, bitpos + 7, result + v % 0x80 * Pow2(bitpos), rest);
    } else {
      Decode32Last(v, bitpos, result, rest);
      WordSizes();
      OrAbove(result, v, bitpos, 32);
    }
  }

  lemma OneByte(v: nat)
    requires v < 0x80
    ensures Encode(v) == [v]
  {
  }

  lemma Decode32Last(v: nat, bitpos: nat, result: nat, rest: seq<byte>)
    requires bitpos < 32 && v < 0x80 && (bitpos == 28 ==> v < 0x10)
    ensures Decode32From(Encode(v) + rest, bitpos, result) == Ok(Or(result, Shl(v, bitpos, 32)), rest)
  {
    hide Or, Shl, Encode;
    OneByte(v);
    var s := [v] + rest;
    assert s[1..] == rest;
    assert bitpos == 28 ==> v / 0x10 == 0;
  }

  lemma SevenBits()
    ensures Pow2(7) == 0x80
  {
    Pow2Step7(0);
  }

  lemma Pow2At28()
    ensures Pow2(28) == 0x1000_0000
  {
    Pow2Step7(0);
    Pow2Step7(7);
    Pow2Step7(14);
    Pow2Step7(21);
  }

  /** One byte with its top bit set, below bit 32: its digit is merged and the loop goes on. */
  lemma Decode32Continues(v: nat, bitpos: nat, result: nat, rest: seq<byte>)
    requires v >= 0x80 && bitpos < 32
    ensures Decode32From(Encode(v) + rest, bitpos, result)
            == Decode32From(Encode(v / 0x80) + rest, bitpos + 7, Or(result, Shl(v % 0x80, bitpos, 32)))
  {
    hide Or, Shl;
    var s := Encode(v) + rest;
    assert s[0] == 0x80 + v % 0x80 && s[1..] == Encode(v / 0x80) + rest;
  }

  lemma Decode32Digit(v: nat, bitpos: nat, result: nat, rest: seq<byte>)
    requires bitpos in {7, 14, 21} && result < Pow2(bitpos) && v >= 0x80
    ensures Decode32From(Encode(v) + rest, bitpos, result)
            == Decode32From(Encode(v / 0x80) + rest, bitpos + 7, result + v % 0x80 * Pow2(bitpos))
    ensures result + v % 0x80 * Pow2(bitpos) < Pow2(bitpos + 7)
  {
    hide Or, Shl, Pow2, Decode32From, Encode;
    Decode32Continues(v, bitpos, result, rest);
    DigitStep(v, Pow2(bitpos), result);
    Pow2Step7(bitpos);
    Pow2Monotonic(bitpos + 7, 32);
    OrAbove(result, v % 0x80, bitpos, 32);
  }

  /** The byte at bit 28: only its low four bits fit, and it is refused when it is the last and has more. */
  lemma Decode32Digit28(v: nat, result: nat, rest: seq<byte>)
    requires result < Pow2(28) && v >= 0x80
    ensures Decode32From(Encode(v) + rest, 28, result)
            == Decode32From(Encode(v / 0x80) + rest, 35, result + v % 0x10 * 0x1000_0000)
  {
    hide Or, Shl, Pow2, Decode32From, Encode;
    Decode32Continues(v, 28, result, rest);
    OrAt28(result, v % 0x80);
    LowDigit(v);
  }

  lemma LowDigit(v: nat)
    ensures v % 0x80 % 0x10 == v % 0x10
  {
    ModUnique(v, 0x10, 8 * (v / 0x80) + v % 0x80 / 0x10, v % 0x80 % 0x10);
  }

  lemma Decode32Last28(v: nat, result: nat, rest: seq<byte>)
    requires 0x10 <= v < 0x80
    ensures Decode32From(Encode(v) + rest, 28, result) == Fail
  {
    hide Or, Shl;
    assert (Encode(v) + rest)[0] == v;
  }

  lemma OrAt28(result: nat, g: nat)
    requires result < Pow2(28) && g < 0x80
    ensures Or(result, Shl(g, 28, 32)) == result + g % 0x10 * 0x1000_0000
  {
    Pow2At28();
    WordSizes();
    ShlTop(g);
    OrAbove(result, g % 0x10, 28, 32);
  }

  lemma ShlTop(g: nat)
    requires g < 0x80
    ensures Shl(g, 28, 32) == Shl(g % 0x10, 28, 32)
  {
    Pow2At28();
    WordSizes();
    ModUnique(g * 0x1000_0000, TWO32, g / 0x10, g % 0x10 * 0x1000_0000);
    ModUnique(g % 0x10 * 0x1000_0000, TWO32, 0, g % 0x10 * 0x1000_0000);
  }

  /** Whether the digits from bit `bitpos` on, `w` in all, are ones the decoder lets pass. */
  predicate Passes(w: nat, bitpos: nat, negative: bool)
    decreases w
  {
    if bitpos >= 63 then negative && w == 1
    else w >= 0x80 && (w % 0x80 == 0 || (negative && w % 0x80 == 0x7F)) && Passes(w / 0x80, bitpos + 7, negative)
  }

  lemma {:induction false} Decode32Tail(w: nat, bitpos: nat, result: nat, rest: seq<byte>)
    requires bitpos in {35, 42, 49, 56, 63} && result < TWO32 && 0 < w
    requires bitpos == 63 ==> w == 1
    requires bitpos == 56 ==> w < 0x100
    requires bitpos == 49 ==> w < 0x8000
    requires bitpos == 42 ==> w < 0x40_0000
    requires bitpos == 35 ==> w < 0x2000_0000
    ensures Decode32From(Encode(w) + rest, bitpos, result)
            == if Passes(w, bitpos, result >= TWO31) then Ok(result, rest) else Fail
    decreases w
  {
    hide Or, Shl;
    var s := Encode(w) + rest;
    assert s[0] == if w < 0x80 then w else 0x80 + w % 0x80;
    assert result / TWO31 == 0 <==> result < TWO31;
    if w >= 0x80 {
      Decode32Tail(w / 0x80, bitpos + 7, result, rest);
      assert s[1..] == Encode(w / 0x80) + rest;
    } else {
      assert s[1..] == rest;
    }
  }

  /** The low five digits of a number beyond 32 bits */
  lemma Decode32Head(v: nat, rest: seq<byte>)
    requires TWO32 <= v < TWO64
    ensures Decode32(Encode(v) + rest)
            == if v < 0x8_0000_0000 then Fail
               else Decode32From(Encode(v / 0x8_0000_0000) + rest, 35, v % TWO32)
  {
    hide Decode32From, Pow2;
    var s := Encode(v) + rest;
    assert s[0] == 0x80 + v % 0x80 && s[1..] == Encode(v / 0x80) + rest;
    SevenBits();
    Pow2Step7(7);
    Pow2Step7(14);
    var v1 := v / 0x80;
    var v2 := v1 / 0x80;
    var v3 := v2 / 0x80;
    var v4 := v3 / 0x80;
    var r1 := v % 0x80;
    var r2 := r1 + v1 % 0x80 * 0x80;
    var r3 := r2 + v2 % 0x80 * 0x4000;
    var r4 := r3 + v3 % 0x80 * 0x20_0000;
    Decode32Digit(v1, 7, r1, rest);
    Decode32Digit(v2, 14, r2, rest);
    Decode32Digit(v3, 21, r3, rest);
    if v4 < 0x80 {
      Decode32Last28(v4, r4, rest);
    } else {
      Decode32Digit28(v4, r4, rest);
    }
    HeadDigits(v);
  }

  lemma HeadDigits(v: nat)
    ensures var v4 := v / 0x80 / 0x80 / 0x80 / 0x80;
            && v4 == v / 0x1000_0000 && v4 / 0x80 == v / 0x8_0000_0000
            && v % 0x80 + v / 0x80 % 0x80 * 0x80 + v / 0x80 / 0x80 % 0x80 * 0x4000
               + v / 0x80 / 0x80 / 0x80 % 0x80 * 0x20_0000 + v4 % 0x10 * 0x1000_0000 == v % TWO32
  {
    var v4 := v / 0x80 / 0x80 / 0x80 / 0x80;
    var low := v % 0x80 + v / 0x80 % 0x80 * 0x80 + v / 0x80 / 0x80 % 0x80 * 0x4000
               + v / 0x80 / 0x80 / 0x80 % 0x80 * 0x20_0000;
    assert v == low + 0x1000_0000 * v4 && low < 0x1000_0000;
    ModUnique(v, 0x1000_0000, v4, low);
    ModUnique(v, 0x8_0000_0000, v4 / 0x80, low + 0x1000_0000 * (v4 % 0x80));
    ModUnique(v, TWO32, v4 / 0x10, low + 0x1000_0000 * (v4 % 0x10));
  }

  /** Seven zero bits or seven one bits */
  predicate Uniform(digit: nat) {
    digit == 0 || digit == 0x7F
  }

  /** From 2^63 on, with bit 31 set and the digits at bits 35, 42, 49 and 56 each all zeros or all ones */
  predicate SignLike(v: nat) {
    && v >= TWO63
    && v % TWO32 >= TWO31
    && Uniform(v / 0x8_0000_0000 % 0x80) && Uniform(v / 0x400_0000_0000 % 0x80)
    && Uniform(v / 0x2_0000_0000_0000 % 0x80) && Uniform(v / 0x100_0000_0000_0000 % 0x80)
  }

  /**
    * The 32-bit decoder on canonical encodings, exactly: it returns the low 32 bits of the numbers below
    * 2^32 and of the sign-like ones, and refuses all others.
    */
  lemma Decode32Exact(v: nat, rest: seq<byte>)
    requires v < TWO64
    ensures Decode32(Encode(v) + rest) == if v < TWO32 || SignLike(v) then Ok(v % TWO32, rest) else Fail
  {
    hide Decode32From, Encode, Decode32;
    if v < TWO32 {
      Decode32Small(v, rest);
    } else {
      Decode32Head(v, rest);
      if v >= 0x8_0000_0000 {
        Decode32Tail(v / 0x8_0000_0000, 35, v % TWO32, rest);
        PassesIffSignLike(v);
      }
    }
  }

  lemma PassesIffSignLike(v: nat)
    requires 0x8_0000_0000 <= v < TWO64
    ensures Passes(v / 0x8_0000_0000, 35, v % TWO32 >= TWO31) <==> SignLike(v)
  {
    var negative := v % TWO32 >= TWO31;
    var w := v / 0x8_0000_0000;
    assert w / 0x80 == v / 0x400_0000_0000 && w / 0x80 / 0x80 == v / 0x2_0000_0000_0000;
    assert w / 0x80 / 0x80 / 0x80 == v / 0x100_0000_0000_0000 && w / 0x80 / 0x80 / 0x80 / 0x80 == v / TWO63;
    assert Passes(w / 0x80 / 0x80 / 0x80 / 0x80, 63, negative) <==> negative && v >= TWO63;
    assert Passes(w / 0x80 / 0x80 / 0x80, 56, negative) <==>
           negative && v >= TWO63 && Uniform(v / 0x100_0000_0000_0000 % 0x80);
    assert Passes(w / 0x80 / 0x80, 49, negative) <==>
           Passes(w / 0x80 / 0x80 / 0x80, 56, negative) && Uniform(v / 0x2_0000_0000_0000 % 0x80);
    assert Passes(w / 0x80, 42, negative) <==>
           Passes(w / 0x80 / 0x80, 49, negative) && Uniform(v / 0x400_0000_0000 % 0x80);
  }

  /** So every sign-extended negative 32-bit number is read as its low 32 bits. */
  lemma Decode32SignExtended(n: int, rest: seq<byte>)
    requires -0x8000_0000 <= n < 0
    ensures Decode32(Encode(TWO64 + n) + rest) == Ok(TWO32 + n, rest)
  {
    hide Decode32, Encode;
    var v := TWO64 + n;
    Decode32Exact(v, rest);
    assert v / 0x8_0000_0000 == 0x1fff_ffff;
  }

  // Zigzag: signed numbers as unsigned ones

  /** A signed number in two's complement, and back */
  function AsUnsigned(n: int): (u: nat)
    requires -0x8000_0000_0000_0000 <= n < TWO63
    ensures u < TWO64
  {
    if n < 0 then TWO64 + n else n
  }

  function AsSigned(u: nat): (n: int)
    requires u < TWO64
    ensures -0x8000_0000_0000_0000 <= n < TWO63
  {
    if u >= TWO63 then u - TWO64 else u
  }

  function Complement(u: nat): (c: nat)
    requires u < TWO64
    ensures c < TWO64
  {
    TWO64 - 1 - u
  }

  /** The mapping of pb_encode_svarint */
  function ZigZag(n: int): (u: nat)
    requires -0x8000_0000_0000_0000 <= n < TWO63
    ensures u < TWO64
  {
    if n < 0 then Complement(2 * AsUnsigned(n) % TWO64) else 2 * AsUnsigned(n) % TWO64
  }

  /** The mapping of pb_decode_svarint */
  function UnZigZag(u: nat): (n: int)
    requires u < TWO64
    ensures -0x8000_0000_0000_0000 <= n < TWO63
  {
    if u % 2 == 1 then AsSigned(Complement(u / 2)) else AsSigned(u / 2)
  }

  /** The two mappings undo each other. */
  lemma ZigZagBijection(n: int, u: nat)
    requires -0x8000_0000_0000_0000 <= n < TWO63 && u < TWO64
    ensures UnZigZag(ZigZag(n)) == n && ZigZag(UnZigZag(u)) == u
    ensures ZigZag(n) == if n < 0 then -2 * n - 1 else 2 * n
  {
  }
}
