/** The bit set of required fields that pb_decode_noinit keeps in two 32-bit words, and its final check (pb_decode.c). */
module PbRequired {
  import opened Bits
  import opened Bytes
  import opened Varint
  import opened PbSchema
  import opened PbDecodeSpec

  const ALL_BITS: nat := 0xffff_ffff

  /** fields_seen: two 32-bit words */
  predicate IsBitSet(words: seq<nat>) {
    |words| == 2 && words[0] < TWO32 && words[1] < TWO32
  }

  predicate Marked(words: seq<nat>, k: nat)
    requires IsBitSet(words) && k < 64
  {
    Bit(words[k / 32], k % 32)
  }

  /** The words hold the set. */
  ghost predicate Represents(words: seq<nat>, seen: set<nat>) {
    && IsBitSet(words)
    && (forall k <- seen :: k < 64)
    && forall k: nat | k < 64 :: Marked(words, k) <==> k in seen
  }

  lemma EmptySet()
    ensures Represents([0, 0], {})
  {
    forall k: nat | k < 64 ensures !Marked([0, 0], k) {
      ZeroBit(k % 32);
    }
  }

  /** The words after field k has been met */
  function Mark(words: seq<nat>, k: nat): seq<nat>
    requires IsBitSet(words) && k < 64
  {
    words[k / 32 := Or(words[k / 32], Shl(1, k % 32, 32))]
  }

  lemma MarkAdds(words: seq<nat>, seen: set<nat>, k: nat)
    requires Represents(words, seen) && k < 64
    ensures IsBitSet(words) && Represents(Mark(words, k), seen + {k})
  {
    hide Or, Shl, Bit, Pow2;
    var one := Shl(1, k % 32, 32);
    var word := words[k / 32];
    OneShifted(k % 32);
    WordSizes();
    OrBound(word, one, 32);
    forall j: nat | j < 64 ensures Marked(Mark(words, k), j) <==> j in seen + {k} {
      assert Marked(words, j) <==> j in seen;
      if j / 32 == k / 32 {
        OrBit(word, one, j % 32);
        OneBit(k % 32, j % 32);
        assert j % 32 == k % 32 <==> j == k;
      }
    }
  }

  lemma OneShifted(s: nat)
    requires s < 32
    ensures Shl(1, s, 32) == Pow2(s) < Pow2(32)
  {
    Pow2Monotonic(s + 1, 32);
    ShlSmall(1, s, 32);
  }

  predicate AllSet(word: nat, n: nat) {
    forall i | 0 <= i < n :: Bit(word, i)
  }

  /** A word without bits from n on is the word of n ones if and only if it has the n bits below. */
  lemma AllOnes(word: nat, n: nat)
    requires n <= 32 && word < TWO32
    requires forall i | n <= i < 32 :: !Bit(word, i)
    ensures word == Pow2(n) - 1 <==> AllSet(word, n)
  {
    WordSizes();
    Pow2Monotonic(n, 32);
    var ones := Pow2(n) - 1;
    forall i: nat ensures Bit(ones, i) <==> i < n {
      BelowBit(n, i);
    }
    if AllSet(word, n) {
      SameBits(word, ones, 32);
    }
  }

  /** `allbits >> (32 - n)` */
  lemma LowBits(n: nat)
    requires 0 < n <= 32
    ensures ALL_BITS / Pow2(32 - n) == Pow2(n) - 1
  {
    hide Pow2;
    WordSizes();
    Pow2Sum(n, 32 - n);
    var p, q := Pow2(32 - n), Pow2(n);
    assert p * (q - 1) == q * p - p;
    ModUnique(ALL_BITS, p, q - 1, p - 1);
  }

  lemma {:induction false} Pow2Sum(m: nat, n: nat)
    ensures Pow2(m) * Pow2(n) == Pow2(m + n)
  {
    if m > 0 {
      Pow2Sum(m - 1, n);
    }
  }

  /**
    * The check of the first `count` bits: whole words, and the bits that are left. It finds exactly
    * whether all are set, when none beyond them is.
    */
  method AllMarked(fieldsSeen: seq<nat>, count: nat) returns (ok: bool)
    requires IsBitSet(fieldsSeen) && count <= 64
    requires forall k: nat | count <= k < 64 :: !Marked(fieldsSeen, k)
    ensures ok <==> forall k: nat | k < count :: Marked(fieldsSeen, k)
  {
    hide Bit, Pow2;
    var i := 0;
    while i < count / 32
      invariant i <= count / 32
      invariant forall k: nat | k < 32 * i :: Marked(fieldsSeen, k)
    {
      ghost var word := fieldsSeen[i];
      AllOnes(word, 32);
      WordSizes();
      if fieldsSeen[i] != ALL_BITS {
        ghost var j :| 0 <= j < 32 && !Bit(word, j);
        assert !Marked(fieldsSeen, 32 * i + j);
        return false;
      }
      forall k: nat | 32 * i <= k < 32 * (i + 1) ensures Marked(fieldsSeen, k) {
        assert Bit(word, k % 32);
      }
      i := i + 1;
    }
    if count % 32 != 0 {
      ghost var word := fieldsSeen[count / 32];
      ghost var n := count % 32;
      forall j | n <= j < 32 ensures !Bit(word, j) {
        assert !Marked(fieldsSeen, 32 * i + j);
      }
      AllOnes(word, n);
      LowBits(n);
      if fieldsSeen[count / 32] != ALL_BITS / Pow2(32 - count % 32) {
        ghost var j :| 0 <= j < n && !Bit(word, j);
        assert !Marked(fieldsSeen, 32 * i + j);
        return false;
      }
      forall k: nat | 32 * i <= k < count ensures Marked(fieldsSeen, k) {
        assert Bit(word, k % 32);
      }
    }
    ok := true;
  }

  // Which required fields a message must have

  lemma {:induction false} MoreRequired(fields: seq<Field>, i: nat, n: nat)
    requires i < n <= |fields|
    ensures RequiredBefore(fields, i) + (if fields[i].htype == REQUIRED then 1 else 0) <= RequiredBefore(fields, n)
    decreases n
  {
    if i < n - 1 {
      MoreRequired(fields, i, n - 1);
    }
  }

  /** The positions in the list of the fields that a message has, in the order they come */
  function Taken(fields: seq<Field>, bs: seq<byte>, p: Progress): seq<nat>
    requires |p.vals| == |fields|
    decreases |bs|
  {
    if bs == [] then []
    else
      match TakeField(fields, bs, p)
      case Took(q, rest) =>
        var i := Find(fields, Decode32(bs).value / 8);
        (if i.Some? then [i.value] else []) + Taken(fields, rest, q)
      case _ => []
  }

  /** Field i has required index k, one of those kept track of. */
  predicate HasIndex(fields: seq<Field>, i: nat, k: nat) {
    i < |fields| && fields[i].htype == REQUIRED && RequiredBefore(fields, i) == k < MAX_REQUIRED
  }

  lemma {:induction false} SeenIffTaken(fields: seq<Field>, bs: seq<byte>, p: Progress, k: nat)
    requires |p.vals| == |fields| && TakeFields(fields, bs, p).Some?
    ensures k in TakeFields(fields, bs, p).value.seen
            <==> k in p.seen || exists i <- Taken(fields, bs, p) :: HasIndex(fields, i, k)
    decreases |bs|
  {
    hide TakeField, Find, Decode32;
    if bs != [] {
      match TakeField(fields, bs, p) {
        case Took(q, rest) =>
          TurnMarks(fields, bs, p, k);
          SeenIffTaken(fields, rest, q, k);
          var i := Find(fields, Decode32(bs).value / 8);
          if i.Some? {
            assert Taken(fields, bs, p)[0] == i.value;
          }
          assert forall j <- Taken(fields, rest, q) :: j in Taken(fields, bs, p);
        case Ended =>
      }
    }
  }

  lemma TurnMarks(fields: seq<Field>, bs: seq<byte>, p: Progress, k: nat)
    requires |p.vals| == |fields| && TakeField(fields, bs, p).Took?
    ensures Decode32(bs).Ok?
    ensures var i := Find(fields, Decode32(bs).value / 8);
            k in TakeField(fields, bs, p).p.seen <==> k in p.seen || (i.Some? && HasIndex(fields, i.value, k))
  {
    hide Decode32, Find, RequiredBefore, DecodeField, Skip, Store;
  }

  /** Every index below the count belongs to a required field. */
  lemma {:induction false} IndexOfSome(fields: seq<Field>, n: nat, k: nat) returns (i: nat)
    requires n <= |fields| && k < RequiredBefore(fields, n) && k < MAX_REQUIRED
    ensures HasIndex(fields, i, k)
  {
    if k < RequiredBefore(fields, n - 1) {
      i := IndexOfSome(fields, n - 1, k);
    } else {
      i := n - 1;
    }
  }

  lemma SameIndex(fields: seq<Field>, i: nat, j: nat, k: nat)
    requires HasIndex(fields, i, k) && HasIndex(fields, j, k)
    ensures i == j
  {
    if i < j {
      MoreRequired(fields, i, j);
    } else if j < i {
      MoreRequired(fields, j, i);
    }
  }

  /** Among the fields taken is each required field of the list, but for those after the first 64. */
  predicate HasRequired(fields: seq<Field>, taken: seq<nat>) {
    forall i | 0 <= i < |fields| && fields[i].htype == REQUIRED && RequiredBefore(fields, i) < MAX_REQUIRED :: i in taken
  }

  lemma SeenWhenTaken(fields: seq<Field>, bs: seq<byte>, p: Progress, i: nat, k: nat)
    requires |p.vals| == |fields| && p.seen == {} && TakeFields(fields, bs, p).Some? && HasIndex(fields, i, k)
    ensures k in TakeFields(fields, bs, p).value.seen <==> i in Taken(fields, bs, p)
  {
    hide TakeFields, Taken;
    SeenIffTaken(fields, bs, p, k);
    if k in TakeFields(fields, bs, p).value.seen {
      var j :| j in Taken(fields, bs, p) && HasIndex(fields, j, k);
      SameIndex(fields, i, j, k);
    }
  }

  /**
    * When every field of a message decodes, the message is accepted if and only if it has each required
    * field of the list, but for those after the first 64.
    */
  lemma RequiredExact(fields: seq<Field>, bs: seq<byte>, vals: seq<FieldVal>)
    requires |vals| == |fields| && TakeFields(fields, bs, Progress(vals, {})).Some?
    ensures DecodeNoinit(fields, bs, vals).Some? <==> HasRequired(fields, Taken(fields, bs, Progress(vals, {})))
  {
    hide TakeFields, Taken;
    var start := Progress(vals, {});
    var seen, taken := TakeFields(fields, bs, start).value.seen, Taken(fields, bs, start);
    if HasRequired(fields, taken) {
      forall k: nat | k < RequiredBefore(fields, |fields|) && k < MAX_REQUIRED ensures k in seen {
        var i := IndexOfSome(fields, |fields|, k);
        SeenWhenTaken(fields, bs, start, i, k);
      }
    } else {
      var i :| 0 <= i < |fields| && fields[i].htype == REQUIRED && RequiredBefore(fields, i) < MAX_REQUIRED && i !in taken;
      var k := RequiredBefore(fields, i);
      SeenWhenTaken(fields, bs, start, i, k);
      MoreRequired(fields, i, |fields|);
    }
  }
}
