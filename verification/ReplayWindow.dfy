/**
  * The DTLS anti-replay window (dtls_record.cc): a 64-bit mask over the last 64
  * record numbers, and the set of record numbers it stands for.
  */
module ReplayWindow {
  import opened Bits
  import opened Bytes

  /** kWindowSize: the number of bits of the mask. */
  const WINDOW_SIZE: nat := 64

  /** DTLS1_BITMAP. Bit i of `mask` is for the record number `maxSeq - i`. */
  datatype Window = Window(mask: nat, maxSeq: nat) {

    /** What dtls1_bitmap_should_discard answers. */
    predicate ShouldDiscard(n: nat) {
      n <= maxSeq && (maxSeq - n >= WINDOW_SIZE || Bit(mask, maxSeq - n))
    }

    /** The window moved forward so that `n` is not beyond its maximum. */
    function Slide(n: nat): Window {
      if n <= maxSeq then this
      else if n - maxSeq >= WINDOW_SIZE then Window(0, n)
      else Window(Shl(mask, n - maxSeq, WINDOW_SIZE), n)
    }

    /** The window dtls1_bitmap_record leaves behind. */
    function Record(n: nat): Window {
      var w := Slide(n);
      if w.maxSeq - n < WINDOW_SIZE then w.(mask := Or(w.mask, Pow2(w.maxSeq - n))) else w
    }

    /** `seen` is what has been recorded since the window was zeroed. */
    ghost predicate Represents(seen: set<nat>) {
      && maxSeq == Max(seen)
      && forall n: nat | n <= maxSeq < n + WINDOW_SIZE :: n in seen <==> Bit(mask, maxSeq - n)
    }
  }

  /** A zeroed window. */
  const EMPTY := Window(0, 0)

  /** The largest number of a set, 0 when there is none. */
  ghost function Max(s: set<nat>): (m: nat)
    ensures forall n <- s :: n <= m
    ensures m in s || (s == {} && m == 0)
  {
    if s == {} then 0
    else
      var x :| x in s;
      var m := Max(s - {x});
      assert forall n <- s :: n == x || n in s - {x};
      if x > m then x else m
  }

  lemma EmptyRepresents()
    ensures EMPTY.Represents({})
  {
    ZeroBit(0);
  }

  lemma RecordAdds(w: Window, n: nat, seen: set<nat>)
    requires w.Represents(seen) && !w.ShouldDiscard(n)
    ensures w.Record(n).Represents(seen + {n})
  {
    var w1, w2 := w.Slide(n), w.Record(n);
    forall k: nat | k <= w2.maxSeq < k + WINDOW_SIZE
      ensures k in seen + {n} <==> Bit(w2.mask, w2.maxSeq - k)
    {
      OrBit(w1.mask, Pow2(w1.maxSeq - n), w1.maxSeq - k);
      OneBit(w1.maxSeq - n, w1.maxSeq - k);
      if n > w.maxSeq {
        ZeroBit(w1.maxSeq - k);
        if n - w.maxSeq < WINDOW_SIZE {
          ShlBit(w.mask, n - w.maxSeq, WINDOW_SIZE, w1.maxSeq - k);
        }
      }
    }
    MaxOfSum(seen, n);
  }

  lemma MaxOfSum(s: set<nat>, n: nat)
    ensures Max(s + {n}) == if n > Max(s) then n else Max(s)
  {
    assert n in s + {n};
    if s != {} {
      assert Max(s) in s + {n};
    }
  }

  /** A number is refused exactly when it has been recorded or lies 64 or more below the largest recorded one. */
  lemma DiscardedIffSeenOrStale(w: Window, seen: set<nat>, n: nat)
    requires w.Represents(seen)
    ensures w.ShouldDiscard(n) <==> n in seen || n + WINDOW_SIZE <= Max(seen)
  {
  }

  /** A record on arrival: its number, and whether the AEAD opens it. */
  datatype Arrival = Arrival(number: nat, opens: bool)

  /** The receiving side of an epoch: its window, and the numbers accepted so far in order. */
  datatype Filter = Filter(window: Window, accepted: seq<nat>) {

    function Arrive(a: Arrival): Filter {
      if window.ShouldDiscard(a.number) || !a.opens then this
      else Filter(window.Record(a.number), accepted + [a.number])
    }

    ghost predicate Valid() {
      window.Represents(Elements(accepted)) && Distinct(accepted)
    }
  }

  function Run(arrivals: seq<Arrival>): Filter {
    if arrivals == [] then Filter(EMPTY, [])
    else Run(arrivals[..|arrivals| - 1]).Arrive(arrivals[|arrivals| - 1])
  }

  ghost function Elements(ns: seq<nat>): set<nat> {
    set n <- ns
  }

  ghost predicate Distinct(ns: seq<nat>) {
    forall i, j | 0 <= i < j < |ns| :: ns[i] != ns[j]
  }

  lemma AppendNew(ns: seq<nat>, n: nat)
    requires Distinct(ns) && n !in Elements(ns)
    ensures Distinct(ns + [n]) && Elements(ns + [n]) == Elements(ns) + {n}
  {
  }

  lemma ArriveKeepsValid(f: Filter, a: Arrival)
    requires f.Valid()
    ensures f.Arrive(a).Valid()
  {
    var seen := Elements(f.accepted);
    if !f.window.ShouldDiscard(a.number) && a.opens {
      DiscardedIffSeenOrStale(f.window, seen, a.number);
      RecordAdds(f.window, a.number, seen);
      AppendNew(f.accepted, a.number);
    }
  }

  /** Over any run the window stands for the set of accepted numbers, and no number is accepted twice. */
  lemma {:induction false} AcceptedOnce(arrivals: seq<Arrival>)
    ensures Run(arrivals).Valid()
  {
    if arrivals == [] {
      EmptyRepresents();
      assert Elements([]) == {};
    } else {
      AcceptedOnce(arrivals[..|arrivals| - 1]);
      ArriveKeepsValid(Run(arrivals[..|arrivals| - 1]), arrivals[|arrivals| - 1]);
    }
  }

  /** DTLS1_BITMAP as the record layer updates it. A record number arrives as eight big-endian bytes. */
  class ReplayBitmap {
    var mask: nat
    var maxSeq: nat

    ghost function Value(): Window
      reads this
    {
      Window(mask, maxSeq)
    }

    constructor ()
      ensures Value() == EMPTY
    {
      mask, maxSeq := 0, 0;
    }

    method Reset()
      modifies this
      ensures Value() == EMPTY
    {
      mask, maxSeq := 0, 0;
    }

    method ShouldDiscard(sequence: seq<byte>) returns (discard: bool)
      requires |sequence| == 8
      ensures discard == Value().ShouldDiscard(BigEndian(sequence))
    {
      var n := ToU64BE(sequence);
      if n > maxSeq {
        return false;
      }
      var idx := maxSeq - n;
      discard := idx >= WINDOW_SIZE || Bit(mask, idx);
    }

    method Record(sequence: seq<byte>)
      requires |sequence| == 8
      modifies this
      ensures Value() == old(Value()).Record(BigEndian(sequence))
    {
      var n := ToU64BE(sequence);
      if n > maxSeq {
        var shift := n - maxSeq;
        if shift >= WINDOW_SIZE {
          mask := 0;
        } else {
          mask := Shl(mask, shift, WINDOW_SIZE);
        }
        maxSeq := n;
      }
      var idx := maxSeq - n;
      if idx < WINDOW_SIZE {
        mask := Or(mask, Pow2(idx));
      }
    }
  }

  method ToU64BE(bytes: seq<byte>) returns (ret: nat)
    requires |bytes| == 8
    ensures ret == BigEndian(bytes)
  {
    ret := 0;
    for i := 0 to 8
      invariant ret == BigEndian(bytes[..i])
    {
      AppendByte(bytes[..i], bytes[i]);
      assert bytes[..i + 1] == bytes[..i] + [bytes[i]];
      ret := Or(Shl(ret, 8, 64), bytes[i]);
    }
    assert bytes[..8] == bytes;
  }

  lemma AppendByte(prefix: seq<byte>, b: byte)
    requires |prefix| < 8
    ensures Or(Shl(BigEndian(prefix), 8, 64), b) == BigEndian(prefix + [b])
  {
    var n := BigEndian(prefix);
    assert BigEndian(prefix + [b]) == 256 * n + b by {
      assert (prefix + [b])[..|prefix|] == prefix;
    }
    assert Pow2(8) == 256 by { Pow2Step8(0); }
    ShiftFits(n, |prefix|);
    ShlSmall(n, 8, 64);
    OrIsSum(n, b, 8);
  }

  lemma ShiftFits(n: nat, width: nat)
    requires n < Pow2(8 * width) && width < 8
    ensures n * Pow2(8) < Pow2(64)
  {
    assert Pow2(8) == 256 by { Pow2Step8(0); }
    assert Pow2(8 * width + 8) == 256 * Pow2(8 * width) by { Pow2Step8(8 * width); }
    assert Pow2(8 * width + 8) <= Pow2(64) by { Pow2Monotonic(8 * width + 8, 64); }
  }
}
