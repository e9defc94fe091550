/**
  * Unsigned machine words as natural numbers, and the bitwise operators of C on them,
  * defined digit by digit. A w-bit word is a number below Pow2(w).
  */
module Bits {

  function Pow2(n: nat): (p: nat)
    ensures p > 0
  {
    if n == 0 then 1 else 2 * Pow2(n - 1)
  }

  /** Bit i of m: `(m >> i) & 1`. */
  predicate Bit(m: nat, i: nat) {
    if i == 0 then m % 2 == 1 else Bit(m / 2, i - 1)
  }

  /** `a | b` */
  function Or(a: nat, b: nat): nat
    decreases a
  {
    if a == 0 then b
    else 2 * Or(a / 2, b / 2) + (if a % 2 == 1 || b % 2 == 1 then 1 else 0)
  }

  /** `a & b` */
  function And(a: nat, b: nat): nat
    decreases a
  {
    if a == 0 then 0
    else 2 * And(a / 2, b / 2) + (if a % 2 == 1 && b % 2 == 1 then 1 else 0)
  }

  /** `~a` in a w-bit word */
  function Not(a: nat, w: nat): nat
    requires a < Pow2(w)
  {
    Pow2(w) - 1 - a
  }

  /** `a << s` in a w-bit word; the bits pushed past the top are lost. */
  function Shl(a: nat, s: nat, w: nat): nat {
    (a * Pow2(s)) % Pow2(w)
  }

  lemma {:induction false} Pow2Monotonic(m: nat, n: nat)
    requires m <= n
    ensures Pow2(m) <= Pow2(n)
  {
    if m < n {
      Pow2Monotonic(m, n - 1);
    }
  }

  // What each operator does to a single bit

  lemma {:induction false} ZeroBit(i: nat)
    ensures !Bit(0, i)
  {
    if i > 0 {
      ZeroBit(i - 1);
    }
  }

  lemma {:induction false} OrBit(a: nat, b: nat, i: nat)
    ensures Bit(Or(a, b), i) <==> Bit(a, i) || Bit(b, i)
    decreases a
  {
    if a == 0 {
      ZeroBit(i);
    } else if i > 0 {
      OrBit(a / 2, b / 2, i - 1);
    }
  }

  lemma {:induction false} AndBit(a: nat, b: nat, i: nat)
    ensures Bit(And(a, b), i) <==> Bit(a, i) && Bit(b, i)
    decreases a
  {
    if a == 0 {
      ZeroBit(i);
    } else if i > 0 {
      AndBit(a / 2, b / 2, i - 1);
    }
  }

  lemma {:induction false} NotBit(a: nat, w: nat, i: nat)
    requires a < Pow2(w) && i < w
    ensures Bit(Not(a, w), i) <==> !Bit(a, i)
  {
    if i > 0 {
      NotBit(a / 2, w - 1, i - 1);
      assert Not(a, w) / 2 == Not(a / 2, w - 1);
    }
  }

  lemma {:induction false} BelowBit(n: nat, i: nat)
    ensures Bit(Pow2(n) - 1, i) <==> i < n
  {
    if n == 0 {
      ZeroBit(i);
    } else if i > 0 {
      BelowBit(n - 1, i - 1);
      assert (Pow2(n) - 1) / 2 == Pow2(n - 1) - 1;
    }
  }

  lemma {:induction false} OneBit(j: nat, i: nat)
    ensures Bit(Pow2(j), i) <==> i == j
  {
    if i > 0 && j > 0 {
      OneBit(j - 1, i - 1);
    } else if j == 0 && i > 0 {
      ZeroBit(i - 1);
    }
  }

  /** Bits of a product by a power of two move up; those of a remainder below the cut stay. */
  lemma {:induction false} TimesBit(a: nat, s: nat, i: nat)
    ensures Bit(a * Pow2(s), i) <==> s <= i && Bit(a, i - s)
  {
    if s > 0 {
      var b := a * Pow2(s - 1);
      assert a * Pow2(s) == 2 * b;
      if i > 0 {
        TimesBit(a, s - 1, i - 1);
      }
    } else {
      assert a * Pow2(s) == a;
    }
  }

  lemma {:induction false} ModBit(a: nat, w: nat, i: nat)
    requires i < w
    ensures Bit(a % Pow2(w), i) <==> Bit(a, i)
  {
    HalfMod(a, w);
    if i > 0 {
      ModBit(a / 2, w - 1, i - 1);
    }
  }

  lemma HalfMod(a: nat, w: nat)
    requires w > 0
    ensures (a % Pow2(w)) % 2 == a % 2
    ensures (a % Pow2(w)) / 2 == (a / 2) % Pow2(w - 1)
  {
    var p, q, r := Pow2(w - 1), a / Pow2(w), a % Pow2(w);
    assert a == 2 * (p * q) + r;
    assert a / 2 == p * q + r / 2;
    ModUnique(a / 2, p, q, r / 2);
  }

  lemma ModUnique(x: int, p: nat, q: int, r: nat)
    requires x == p * q + r && r < p
    ensures x % p == r && x / p == q
  {
    var q', r' := x / p, x % p;
    assert p * (q - q') == r' - r by { assert p * (q - q') == p * q - p * q'; }
    MultipleInRange(p, q - q');
  }

  lemma MultipleInRange(p: int, k: int)
    requires p > 0 && p * k < p && p * k + p > 0
    ensures k == 0
  {
    if k >= 1 {
      MulAtLeast(p, k);
      assert false;
    } else if k <= -1 {
      MulAtLeast(p, -k);
      assert false;
    }
  }

  lemma MulAtLeast(p: int, k: int)
    requires p > 0 && k >= 1
    ensures p * k >= p
  {
  }

  lemma ShlBit(a: nat, s: nat, w: nat, i: nat)
    requires i < w
    ensures Bit(Shl(a, s, w), i) <==> s <= i && Bit(a, i - s)
  {
    ModBit(a * Pow2(s), w, i);
    TimesBit(a, s, i);
  }

  lemma ShlSmall(a: nat, s: nat, w: nat)
    requires a * Pow2(s) < Pow2(w)
    ensures Shl(a, s, w) == a * Pow2(s)
  {
    ModUnique(a * Pow2(s), Pow2(w), 0, a * Pow2(s));
  }

  lemma {:induction false} OrBound(a: nat, b: nat, w: nat)
    requires a < Pow2(w) && b < Pow2(w)
    ensures Or(a, b) < Pow2(w)
    decreases a
  {
    if a > 0 {
      OrBound(a / 2, b / 2, w - 1);
    }
  }

  /** Words with the same bits are the same word. */
  lemma {:induction false} SameBits(a: nat, b: nat, w: nat)
    requires a < Pow2(w) && b < Pow2(w)
    requires forall i | 0 <= i < w :: Bit(a, i) <==> Bit(b, i)
    ensures a == b
  {
    if w > 0 {
      assert Bit(a, 0) <==> Bit(b, 0);
      forall i | 0 <= i < w - 1 ensures Bit(a / 2, i) <==> Bit(b / 2, i) {
        assert Bit(a, i + 1) <==> Bit(b, i + 1);
      }
      SameBits(a / 2, b / 2, w - 1);
    }
  }

  /** `|` of numbers that share no digit is their sum. */
  lemma {:induction false} OrIsSum(a: nat, b: nat, k: nat)
    requires b < Pow2(k)
    ensures Or(a * Pow2(k), b) == a * Pow2(k) + b
  {
    if k > 0 {
      var c := a * Pow2(k - 1);
      assert a * Pow2(k) == 2 * c;
      OrEven(c, b);
      OrIsSum(a, b / 2, k - 1);
    } else {
      assert a * Pow2(k) == a;
      OrZero(a);
    }
  }

  lemma OrEven(a: nat, b: nat)
    ensures Or(2 * a, b) == 2 * Or(a, b / 2) + b % 2
  {
  }

  lemma {:induction false} OrZero(a: nat)
    ensures Or(a, 0) == a
    decreases a
  {
    if a > 0 {
      OrZero(a / 2);
    }
  }
}
