/** Byte strings and the big-endian numbers written in them. */
module Bytes {
  import opened Bits

  type byte = x: nat | x < 256

  datatype Option<+T> = None | Some(value: T)

  /** The number whose big-endian digits are `bytes`. */
  function BigEndian(bytes: seq<byte>): (n: nat)
    ensures n < Pow2(8 * |bytes|)
  {
    if bytes == [] then 0
    else
      Pow2Step8(8 * (|bytes| - 1));
      256 * BigEndian(bytes[..|bytes| - 1]) + bytes[|bytes| - 1]
  }

  /** The `width` low big-endian digits of `n`. */
  function ToBigEndian(n: nat, width: nat): (bytes: seq<byte>)
    ensures |bytes| == width
  {
    if width == 0 then [] else ToBigEndian(n / 256, width - 1) + [n % 256]
  }

  lemma Pow2Step8(k: nat)
    ensures Pow2(k + 8) == 256 * Pow2(k)
  {
    assert Pow2(k + 8) == 2 * Pow2(k + 7) && Pow2(k + 7) == 2 * Pow2(k + 6) && Pow2(k + 6) == 2 * Pow2(k + 5);
    assert Pow2(k + 5) == 2 * Pow2(k + 4) && Pow2(k + 4) == 2 * Pow2(k + 3) && Pow2(k + 3) == 2 * Pow2(k + 2);
    assert Pow2(k + 2) == 2 * Pow2(k + 1);
  }

  lemma {:induction false} BigEndianRoundTrip(n: nat, width: nat)
    requires n < Pow2(8 * width)
    ensures BigEndian(ToBigEndian(n, width)) == n
  {
    if width > 0 {
      Pow2Step8(8 * (width - 1));
      BigEndianRoundTrip(n / 256, width - 1);
      assert ToBigEndian(n, width)[..width - 1] == ToBigEndian(n / 256, width - 1);
    }
  }

  lemma {:induction false} BigEndianInjective(a: seq<byte>, b: seq<byte>)
    requires |a| == |b| && BigEndian(a) == BigEndian(b)
    ensures a == b
  {
    if a != [] {
      var n := |a| - 1;
      BigEndianInjective(a[..n], b[..n]);
      assert a == a[..n] + [a[n]] && b == b[..n] + [b[n]];
    }
  }

  lemma BigEndianSnoc(prefix: seq<byte>, b: byte)
    ensures BigEndian(prefix + [b]) == 256 * BigEndian(prefix) + b
  {
    assert (prefix + [b])[..|prefix|] == prefix;
  }

  lemma {:induction false} BigEndianZeros(zeros: seq<byte>)
    requires forall i | 0 <= i < |zeros| :: zeros[i] == 0
    ensures BigEndian(zeros) == 0
  {
    if zeros != [] {
      BigEndianZeros(zeros[..|zeros| - 1]);
    }
  }

  lemma EmptyNumber()
    ensures BigEndian([]) == 0 && Pow2(0) == 1
  {
  }

  lemma ShiftDigit(high: nat, p: nat, low: nat, digit: nat)
    ensures 256 * (high * p + low) + digit == high * (256 * p) + (256 * low + digit)
  {
  }

  lemma {:induction false} BigEndianConcat(a: seq<byte>, b: seq<byte>)
    ensures BigEndian(a + b) == BigEndian(a) * Pow2(8 * |b|) + BigEndian(b)
  {
    hide BigEndian, Pow2;
    if b == [] {
      assert a + b == a;
      EmptyNumber();
    } else {
      var n := |b| - 1;
      BigEndianConcat(a, b[..n]);
      BigEndianSnoc(a + b[..n], b[n]);
      BigEndianSnoc(b[..n], b[n]);
      assert a + b == a + b[..n] + [b[n]] && b == b[..n] + [b[n]];
      Pow2Step8(8 * n);
      ShiftDigit(BigEndian(a), Pow2(8 * n), BigEndian(b[..n]), b[n]);
    }
  }
}
