/**
  * What the 32-bit varint decoder makes of any encoding, canonical or not (pb_decode_varint32_eof), and where its 8-bit
  * count of bits wraps.
  */
module VarintAny {
  import opened Bits
  import opened Bytes
  import opened Varint

  /** The longest encoding whose bit positions all fit the 8-bit count */
  const LONGEST: nat := 37

  function Low(s: seq<byte>): seq<byte> {
    if |s| <= 5 then s else s[..5]
  }

  /** The number of the first five digits, to 32 bits */
  function Low32(s: seq<byte>): nat {
    Digits(Low(s)) % TWO32
  }

  /** From the sixth on the digits are zero, or all say that the number is negative. */
  predicate TailOk(t: seq<byte>, negative: bool) {
    forall j | 0 <= j < |t| :: t[j] % 0x80 == 0 || (negative && t[j] == if j < 4 then 0xFF else 0x01)
  }

  predicate Reads32(s: seq<byte>) {
    if |s| <= 5 then Digits(s) < TWO32 else TailOk(s[5..], Low32(s) >= TWO31)
  }

  /** The digits from the sixth on, number i of them and the following */
  lemma {:induction false} TailDecoded(t: seq<byte>, i: nat, result: nat, rest: seq<byte>)
    requires Terminated(t) && i + |t| <= LONGEST - 5 && result < TWO32
    ensures Decode32From(t + rest, 35 + 7 * i, result)
            == if forall j | 0 <= j < |t| :: t[j] % 0x80 == 0 || (result >= TWO31 && t[j] == if i + j < 4 then 0xFF else 0x01)
               then Ok(result, rest) else Fail
    decreases |t|
  {
    hide Or, Shl;
    assert (t + rest)[1..] == t[1..] + rest;
    assert result / TWO31 == 0 <==> result < TWO31;
    if |t| > 1 {
      TailDecoded(t[1..], i + 1, result, rest);
      assert forall j | 1 <= j < |t| :: t[j] == t[1..][j - 1];
    }
  }

  /** One digit below bit 28 */
  lemma LowDigit(d: nat, k: nat, result: nat)
    requires d < 0x80 && 1 <= k <= 3 && result < Pow2(7 * k)
    ensures Or(result, Shl(d, 7 * k, 32)) == result + d * Pow2(7 * k) < Pow2(7 * k + 7) <= Pow2(28) == 0x1000_0000
  {
    hide Or, Shl;
    Pow2At28();
    WordSizes();
    Pow2Step7(7 * k);
    Pow2Monotonic(7 * k + 7, 28);
    DigitStep(d, Pow2(7 * k), result);
    OrAbove(result, d, 7 * k, 32);
  }

  /** The digit at bit 28, of which four bits fit */
  lemma FifthDigit(d: nat, result: nat)
    requires d < 0x80 && result < Pow2(28)
    ensures Or(result, Shl(d, 28, 32)) == (result + d * Pow2(28)) % TWO32
    ensures result + d * Pow2(28) < TWO32 <==> d / 0x10 == 0
  {
    hide Or, Shl, Pow2;
    Pow2At28();
    OrAt28(result, d);
    ModUnique(result + d * 0x1000_0000, TWO32, d / 0x10, result + d % 0x10 * 0x1000_0000);
  }

  lemma SmallMod(n: nat)
    ensures n < TWO32 ==> n % TWO32 == n
  {
  }

  /** One turn of the decoder below bit 32 */
  lemma HeadTurn(s: seq<byte>, bitpos: nat, result: nat, rest: seq<byte>)
    requires s != [] && bitpos < 32
    ensures var result' := Or(result, Shl(s[0] % 0x80, bitpos, 32));
            Decode32From(s + rest, bitpos, result)
            == if s[0] >= 0x80 then Decode32From(s[1..] + rest, bitpos + 7, result')
               else if bitpos == 28 && s[0] / 0x10 != 0 then Fail
               else Ok(result', s[1..] + rest)
  {
    hide Or, Shl;
    assert (s + rest)[1..] == s[1..] + rest;
  }

  /** Digits up to the fifth */
  lemma {:induction false} HeadShort(s: seq<byte>, k: nat, result: nat, rest: seq<byte>)
    requires Terminated(s) && 1 <= k && k + |s| <= 5 && result < Pow2(7 * k)
    ensures var n := result + Digits(s) * Pow2(7 * k);
            Decode32From(s + rest, 7 * k, result) == if n < TWO32 then Ok(n, rest) else Fail
    decreases |s|
  {
    hide Or, Shl, Pow2, Decode32From, Digits;
    var d: nat := s[0] % 0x80;
    HeadTurn(s, 7 * k, result, rest);
    FirstDigit(s);
    if |s| == 1 {
      OneDigit(s);
      assert s[1..] + rest == rest;
      if k == 4 {
        FifthDigit(d, result);
        SmallMod(result + d * Pow2(28));
      } else {
        LowDigit(d, k, result);
      }
    } else {
      LowDigit(d, k, result);
      Pow2Step7(7 * k);
      MoreDigits(d, Digits(s[1..]), Pow2(7 * k));
      HeadShort(s[1..], k + 1, result + d * Pow2(7 * k), rest);
    }
  }

  /** The first five of more digits */
  lemma {:induction false} HeadLong(s: seq<byte>, k: nat, result: nat, rest: seq<byte>)
    requires Terminated(s) && 1 <= k <= 4 && k + |s| > 5 && result < Pow2(7 * k)
    ensures Decode32From(s + rest, 7 * k, result)
            == Decode32From(s[5 - k..] + rest, 35, (result + Digits(s[..5 - k]) * Pow2(7 * k)) % TWO32)
    decreases |s|
  {
    hide Or, Shl, Pow2, Decode32From, Digits;
    var d: nat := s[0] % 0x80;
    HeadTurn(s, 7 * k, result, rest);
    if k == 4 {
      FifthDigit(d, result);
      OneDigit(s[..1]);
    } else {
      LowDigit(d, k, result);
      Pow2Step7(7 * k);
      var head := s[..5 - k];
      FirstDigit(head);
      assert head[1..] == s[1..][..4 - k] && s[1..][4 - k..] == s[5 - k..];
      MoreDigits(d, Digits(head[1..]), Pow2(7 * k));
      HeadLong(s[1..], k + 1, result + d * Pow2(7 * k), rest);
    }
  }

  /**
    * Any encoding of up to 37 bytes, exactly: the first five digits give the low 32 bits of the number; of up to five
    * the number must be below 2^32, and from the sixth on they must be zeros, or sign bits of a negative number.
    */
  lemma Decode32Any(s: seq<byte>, rest: seq<byte>)
    requires Terminated(s) && |s| <= LONGEST
    ensures Decode32(s + rest) == if Reads32(s) then Ok(Low32(s), rest) else Fail
  {
    hide Decode32From, Digits, Pow2, TailOk;
    var d: nat := s[0] % 0x80;
    FirstByte(s, rest);
    FirstDigit(s);
    SmallMod(Digits(s));
    SevenBits();
    if |s| == 1 {
      OneDigit(s);
      assert s[1..] + rest == rest;
    } else if |s| <= 5 {
      HeadShort(s[1..], 1, d, rest);
    } else {
      LongDecoded(s, rest);
    }
  }

  lemma LongDecoded(s: seq<byte>, rest: seq<byte>)
    requires Terminated(s) && 5 < |s| <= LONGEST
    ensures Decode32From(s[1..] + rest, 7, s[0] % 0x80) == if Reads32(s) then Ok(Low32(s), rest) else Fail
  {
    hide Decode32From, Digits, Pow2, TailOk, Terminated;
    var head, tail := s[..5], s[5..];
    SevenBits();
    StillTerminated(s, 1);
    StillTerminated(s, 5);
    HeadLong(s[1..], 1, s[0] % 0x80, rest);
    assert s[1..][4..] == tail && s[1..][..4] == head[1..];
    FirstDigit(head);
    TailDecoded(tail, 0, Low32(s), rest);
    SameTail(tail, Low32(s));
  }

  lemma FirstByte(s: seq<byte>, rest: seq<byte>)
    requires s != []
    ensures Decode32(s + rest)
            == if s[0] < 0x80 then Ok(s[0], s[1..] + rest) else Decode32From(s[1..] + rest, 7, s[0] % 0x80)
  {
    hide Decode32From;
    assert (s + rest)[1..] == s[1..] + rest;
  }

  lemma OneDigit(s: seq<byte>)
    requires |s| == 1
    ensures Digits(s) == s[0] % 0x80
  {
    assert Digits(s[1..]) == 0;
  }

  lemma FirstDigit(s: seq<byte>)
    requires s != []
    ensures Digits(s) == s[0] % 0x80 + Digits(s[1..]) * 0x80
  {
  }

  lemma {:induction false} StillTerminated(s: seq<byte>, k: nat)
    requires Terminated(s) && k < |s|
    ensures Terminated(s[k..])
  {
    if k > 0 {
      StillTerminated(s[1..], k - 1);
      assert s[1..][k - 1..] == s[k..];
    } else {
      assert s[0..] == s;
    }
  }

  lemma SameTail(t: seq<byte>, result: nat)
    ensures TailOk(t, result >= TWO31) <==>
              forall j | 0 <= j < |t| :: t[j] % 0x80 == 0 || (result >= TWO31 && t[j] == if 0 + j < 4 then 0xFF else 0x01)
  {
  }

  // Beyond that the bit position starts over

  function Repeat(b: byte, n: nat): (s: seq<byte>)
    ensures |s| == n && forall i | 0 <= i < n :: s[i] == b
  {
    if n == 0 then [] else [b] + Repeat(b, n - 1)
  }

  lemma {:induction false} ZeroDigits(n: nat, bitpos: nat, rest: seq<byte>)
    requires bitpos < 0x100
    ensures Decode32From(Repeat(0x80, n) + rest, bitpos, 0) == Decode32From(rest, (bitpos + 7 * n) % 0x100, 0)
    decreases n
  {
    hide Decode32From, Repeat;
    if n == 0 {
      assert Repeat(0x80, n) + rest == rest by { assert Repeat(0x80, n) == []; }
    } else {
      var more := Repeat(0x80, n - 1) + rest;
      ZeroTurn(more, bitpos);
      OneMore(n, rest);
      ZeroDigits(n - 1, (bitpos + 7) % 0x100, rest);
      PositionAfter(bitpos, n);
    }
  }

  lemma OneMore(n: nat, rest: seq<byte>)
    requires n > 0
    ensures Repeat(0x80, n) + rest == [0x80] + (Repeat(0x80, n - 1) + rest)
  {
  }

  lemma PositionAfter(bitpos: nat, n: nat)
    requires n > 0
    ensures ((bitpos + 7) % 0x100 + 7 * (n - 1)) % 0x100 == (bitpos + 7 * n) % 0x100
  {
  }

  lemma ZeroTurn(bs: seq<byte>, bitpos: nat)
    ensures Decode32From([0x80] + bs, bitpos, 0) == Decode32From(bs, (bitpos + 7) % 0x100, 0)
  {
    hide Or, Shl;
    NothingAdded(bitpos);
    assert ([0x80] + bs)[1..] == bs;
  }

  lemma NothingAdded(bitpos: nat)
    ensures Or(0, Shl(0, bitpos, 32)) == 0
  {
    assert 0 * Pow2(bitpos) == 0;
  }

  /** Thirty-seven zero digits and a one: the one is at bit 259, and is read as if at bit 3. */
  lemma WrapsAround(rest: seq<byte>)
    ensures Decode32(Repeat(0x80, LONGEST) + [1] + rest) == Ok(8, rest)
  {
    hide Decode32From, Or, Shl;
    var bs := Repeat(0x80, LONGEST) + [1] + rest;
    var n := LONGEST - 1;
    assert Repeat(0x80, LONGEST) == [0x80] + Repeat(0x80, n);
    assert bs[1..] == Repeat(0x80, n) + ([1] + rest);
    ZeroDigits(n, 7, [1] + rest);
    OneAtThree([1] + rest);
    assert ([1] + rest)[1..] == rest;
  }

  lemma OneAtThree(bs: seq<byte>)
    requires bs != [] && bs[0] == 1
    ensures Decode32From(bs, 3, 0) == Ok(8, bs[1..])
  {
    hide Or, Shl;
    Pow2Monotonic(3, 32);
    assert Pow2(0) == 1 && Pow2(1) == 2 && Pow2(2) == 4 && Pow2(3) == 8;
    WordSizes();
    OrAbove(0, 1, 3, 32);
  }
}
