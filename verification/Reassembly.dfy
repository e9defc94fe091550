/**
  * Reassembly of one incoming DTLS handshake message (d1_both.cc): a byte buffer, and a bitmask of
  * the positions received so far that is dropped once every position is in.
  */
module Reassembly {
  import opened Bits
  import opened Bytes
  import opened HandshakeFragment

  /** bit_range: the ones below bit `end`, but for those below `start` */
  function BitRange(start: nat, end: nat): byte
    requires start < 32 && end < 32
  {
    Pow2Monotonic(start, 32);
    And(Not(Pow2(start) - 1, 32), Pow2(end) - 1) % 256
  }

  lemma BitRangeBit(start: nat, end: nat, k: nat)
    requires start <= 8 && end <= 8 && k < 8
    ensures Bit(BitRange(start, end), k) <==> start <= k < end
  {
    Pow2Monotonic(start, 32);
    var m := Pow2(start) - 1;
    assert Pow2(8) == 256 by { Pow2Step8(0); }
    ModBit(And(Not(m, 32), Pow2(end) - 1), 8, k);
    AndBit(Not(m, 32), Pow2(end) - 1, k);
    NotBit(m, 32, k);
    BelowBit(start, k);
    BelowBit(end, k);
  }

  /** Bits `from`, inclusive, to `to`, exclusive, of `b` are all set. */
  predicate AllSet(b: byte, from: nat, to: nat) {
    forall k: nat | from <= k < to :: Bit(b, k)
  }

  predicate NoneSet(b: byte, from: nat, to: nat) {
    forall k: nat | from <= k < to :: !Bit(b, k)
  }

  lemma RangeAllSet(from: nat, to: nat)
    requires from <= to <= 8
    ensures AllSet(BitRange(from, to), from, to) && NoneSet(BitRange(from, to), to, 8)
  {
    forall k: nat | from <= k < 8 ensures Bit(BitRange(from, to), k) <==> k < to {
      BitRangeBit(from, to, k);
    }
  }

  /** A byte whose bits from `r` up are clear equals bit_range(0, r) exactly when its first r bits are set. */
  lemma PartialByte(b: byte, r: nat)
    requires r <= 8 && NoneSet(b, r, 8)
    ensures b == BitRange(0, r) <==> AllSet(b, 0, r)
  {
    RangeAllSet(0, r);
    if AllSet(b, 0, r) {
      assert Pow2(8) == 256 by { Pow2Step8(0); }
      SameBits(b, BitRange(0, r), 8);
    }
  }

  lemma FullByte()
    ensures BitRange(0, 8) == 0xff
  {
    assert Pow2(8) == 256 by { Pow2Step8(0); }
    RangeAllSet(0, 8);
    var full := Pow2(8) - 1;
    forall k: nat | k < 8 ensures Bit(full, k) {
      BelowBit(8, k);
    }
    SameBits(BitRange(0, 8), full, 8);
  }

  /** Position i of the bitmask. */
  predicate Marked(mask: seq<byte>, i: nat)
    requires i < 8 * |mask|
  {
    Bit(mask[i / 8], i % 8)
  }

  /** `mask` after marking `start`, inclusive, to `end`, exclusive. */
  ghost predicate MarksAdded(before: seq<byte>, after: seq<byte>, start: nat, end: nat) {
    && |after| == |before|
    && forall i: nat | i < 8 * |before| :: Marked(after, i) <==> Marked(before, i) || start <= i < end
  }

  method OrByte(mask: array<byte>, at: nat, from: nat, to: nat)
    requires at < mask.Length && from <= 8 && to <= 8
    modifies mask
    ensures MarksAdded(old(mask[..]), mask[..], 8 * at + from, 8 * at + to)
  {
    Or8(mask[at], BitRange(from, to));
    mask[at] := Or(mask[at], BitRange(from, to));
    forall i: nat | i < 8 * mask.Length
      ensures Marked(mask[..], i) <==> old(Marked(mask[..], i)) || 8 * at + from <= i < 8 * at + to
    {
      if i / 8 == at {
        OrBit(old(mask[at]), BitRange(from, to), i % 8);
        BitRangeBit(from, to, i % 8);
      }
    }
  }

  method SetWholeByte(mask: array<byte>, at: nat)
    requires at < mask.Length
    modifies mask
    ensures MarksAdded(old(mask[..]), mask[..], 8 * at, 8 * at + 8)
  {
    FullByte();
    RangeAllSet(0, 8);
    mask[at] := 0xff;
    forall i: nat | i < 8 * mask.Length
      ensures Marked(mask[..], i) <==> old(Marked(mask[..], i)) || 8 * at <= i < 8 * at + 8
    {
      if i / 8 == at {
        assert Bit(BitRange(0, 8), i % 8);
      }
    }
  }

  lemma Or8(a: byte, b: byte)
    ensures Or(a, b) < 256
  {
    assert Pow2(8) == 256 by { Pow2Step8(0); }
    OrBound(a, b, 8);
  }

  method MarkRange(mask: array<byte>, start: nat, end: nat)
    requires start <= end <= 8 * mask.Length
    modifies mask
    ensures MarksAdded(old(mask[..]), mask[..], start, end)
  {
    if start == end {
      return;
    }
    if start / 8 == end / 8 {
      OrByte(mask, start / 8, start % 8, end % 8);
    } else {
      OrByte(mask, start / 8, start % 8, 8);
      for i := start / 8 + 1 to end / 8
        invariant MarksAdded(old(mask[..]), mask[..], start, 8 * i)
      {
        SetWholeByte(mask, i);
      }
      if end % 8 != 0 {
        OrByte(mask, end / 8, 0, end % 8);
      }
    }
  }

  /** No position from `msgLen` up is marked. */
  ghost predicate PaddingClear(mask: seq<byte>, msgLen: nat) {
    forall i: nat | msgLen <= i < 8 * |mask| :: !Marked(mask, i)
  }

  ghost predicate AllMarked(mask: seq<byte>, msgLen: nat)
    requires msgLen <= 8 * |mask|
  {
    forall i: nat | i < msgLen :: Marked(mask, i)
  }

  /** The check for a complete message at the end of dtls1_hm_fragment_mark. */
  method IsComplete(mask: array<byte>, msgLen: nat) returns (complete: bool)
    requires mask.Length == (msgLen + 7) / 8 && PaddingClear(mask[..], msgLen)
    ensures complete <==> AllMarked(mask[..], msgLen)
  {
    for i := 0 to msgLen / 8
      invariant AllMarked(mask[..], 8 * i)
    {
      ByteMarked(mask[..], i, 8);
      FullByte();
      if mask[i] != 0xff {
        return false;
      }
    }
    if msgLen % 8 != 0 {
      ByteMarked(mask[..], msgLen / 8, msgLen % 8);
      if mask[msgLen / 8] != BitRange(0, msgLen % 8) {
        return false;
      }
    }
    complete := true;
  }

  /** Byte `at` equals bit_range(0, r) exactly when the r positions it starts with are marked. */
  lemma ByteMarked(mask: seq<byte>, at: nat, r: nat)
    requires at < |mask| && r <= 8
    requires forall i: nat | 8 * at + r <= i < 8 * at + 8 :: !Marked(mask, i)
    ensures mask[at] == BitRange(0, r) <==> forall i: nat | 8 * at <= i < 8 * at + r :: Marked(mask, i)
  {
    var b := mask[at];
    forall k: nat | k < 8 ensures Bit(b, k) <==> Marked(mask, 8 * at + k) {
    }
    PartialByte(b, r);
    if forall i: nat | 8 * at <= i < 8 * at + r :: Marked(mask, i) {
      assert AllSet(b, 0, r);
    }
    if AllSet(b, 0, r) {
      forall i: nat | 8 * at <= i < 8 * at + r ensures Marked(mask, i) {
        assert Bit(b, i - 8 * at);
      }
    }
  }

  /**
    * An incoming message as seen from outside: the bytes received so far by position, and the read
    * epochs they came from.
    */
  datatype Incoming = Incoming(typ: byte, seqNo: nat, msgLen: nat, content: map<nat, byte>, epochs: set<nat>) {

    predicate Complete() {
      forall i: nat | i < msgLen :: i in content
    }

    /** The byte that a fragment body placed at `off` has for position i. */
    static function ByteFor(off: nat, body: seq<byte>, i: nat): byte
      requires off <= i < off + |body|
    {
      body[i - off]
    }

    /** The bytes of one fragment body, placed at `off`; a byte received again is overwritten. */
    function Put(off: nat, body: seq<byte>, epoch: nat): Incoming {
      this.(content := content + (map i: nat | off <= i < off + |body| :: ByteFor(off, body, i)),
            epochs := if body == [] then epochs else epochs + {epoch})
    }

    function Body(): (b: seq<byte>)
      requires Complete()
      ensures |b| == msgLen
    {
      seq(msgLen, i requires 0 <= i < msgLen => content[i])
    }
  }

  /** hm_fragment. `reassembly` is null once the message is complete. */
  class HmFragment {
    const typ: byte
    const seqNo: nat
    const msgLen: nat
    const data: array<byte>
    var reassembly: array?<byte>
    ghost var epochs: set<nat>

    ghost function Repr(): set<object>
      reads this
    {
      {this, data} + (if reassembly == null then {} else {reassembly})
    }

    ghost predicate Valid()
      reads Repr()
    {
      && data.Length == HM_HEADER_LENGTH + msgLen
      && data[..HM_HEADER_LENGTH] == Serialize(Header(typ, msgLen, seqNo, 0, msgLen), [])
      && (reassembly != null ==>
            && msgLen > 0
            && reassembly != data
            && reassembly.Length == (msgLen + 7) / 8
            && PaddingClear(reassembly[..], msgLen)
            && !AllMarked(reassembly[..], msgLen))
    }

    ghost predicate Has(i: nat)
      requires i < msgLen
      requires Valid()
      reads Repr()
    {
      reassembly == null || Marked(reassembly[..], i)
    }

    /** Byte i of the message body. */
    ghost function At(i: nat): byte
      requires i < msgLen && data.Length == HM_HEADER_LENGTH + msgLen
      reads data
    {
      data[HM_HEADER_LENGTH + i]
    }

    ghost function Value(): Incoming
      requires Valid()
      reads Repr()
    {
      Incoming(typ, seqNo, msgLen, map i: nat | i < msgLen && Has(i) :: At(i), epochs)
    }

    /** The mask is gone exactly when every byte is in. */
    lemma CompleteIffNoMask()
      requires Valid()
      ensures Value().Complete() <==> reassembly == null
    {
      if reassembly != null {
        var i: nat :| i < msgLen && !Marked(reassembly[..], i);
        assert !Has(i) && i !in Value().content;
      }
    }

    lemma BodyIsData()
      requires Valid() && reassembly == null
      ensures Value().Complete() && Value().Body() == data[HM_HEADER_LENGTH..]
    {
      CompleteIffNoMask();
      forall i: nat | i < msgLen ensures Value().Body()[i] == At(i) {
        assert Has(i);
      }
    }

    /** dtls1_hm_fragment_new */
    constructor (hdr: Header)
      requires hdr.Fits()
      ensures Valid() && fresh(Repr())
      ensures Value() == Incoming(hdr.typ, hdr.seqNo, hdr.msgLen, map[], {})
    {
      typ, seqNo, msgLen := hdr.typ, hdr.seqNo, hdr.msgLen;
      var header := Serialize(Header(hdr.typ, hdr.msgLen, hdr.seqNo, 0, hdr.msgLen), []);
      data := new byte[HM_HEADER_LENGTH + hdr.msgLen](i => if 0 <= i < |header| then header[i] else 0);
      reassembly := null;
      epochs := {};
      new;
      if msgLen > 0 {
        reassembly := new byte[(msgLen + 7) / 8](_ => 0);
        forall i: nat | i < 8 * reassembly.Length ensures !Marked(reassembly[..], i) {
          ZeroBit(i % 8);
        }
        assert !Marked(reassembly[..], 0);
      }
    }

    /** dtls1_hm_fragment_mark */
    method Mark(start: nat, end: nat)
      requires data.Length == HM_HEADER_LENGTH + msgLen && reassembly != null && reassembly != data
      requires Valid() && start <= end <= msgLen
      modifies this`reassembly, reassembly
      ensures Valid() && (reassembly == null || reassembly == old(reassembly))
      ensures forall i: nat | i < msgLen :: Has(i) <==> old(Has(i)) || start <= i < end
    {
      if start == end {
        return;
      }
      MarkRange(reassembly, start, end);
      var complete := IsComplete(reassembly, msgLen);
      if complete {
        reassembly := null;
      }
    }

    /** The copy of a fragment body into the message, and its marking, in dtls1_open_handshake. */
    method Receive(off: nat, body: seq<byte>, ghost epoch: nat)
      requires Valid() && reassembly != null && off + |body| <= msgLen
      modifies this`reassembly, this`epochs, data, reassembly
      ensures Valid() && (reassembly == null || reassembly == old(reassembly))
      ensures Value() == old(Value()).Put(off, body, epoch)
    {
      ghost var before := Value();
      assert forall i <- before.content :: i < msgLen && before.content[i] == At(i);
      assert forall i: nat | i < msgLen :: i in before.content <==> Has(i);
      CopyIn(off, body);
      Mark(off, off + |body|);
      if body != [] {
        epochs := epochs + {epoch};
      }
      forall i: nat | i < msgLen && Has(i)
        ensures At(i)
                == if off <= i < off + |body| then Incoming.ByteFor(off, body, i) else before.content[i]
      {
        assert i in before.content <==> old(Has(i));
      }
      PutContent(before, off, body, epoch);
    }

    /** Two incoming messages whose contents agree position by position are equal there. */
    lemma PutContent(before: Incoming, off: nat, body: seq<byte>, epoch: nat)
      requires Valid() && (forall i <- before.content :: i < msgLen) && off + |body| <= msgLen
      requires forall i: nat | i < msgLen :: Has(i) <==> i in before.content || off <= i < off + |body|
      requires forall i: nat | i < msgLen && Has(i) ::
                 At(i)
                 == if off <= i < off + |body| then Incoming.ByteFor(off, body, i) else before.content[i]
      ensures Value().content == before.Put(off, body, epoch).content
    {
    }

    method CopyIn(off: nat, body: seq<byte>)
      requires Valid() && off + |body| <= msgLen
      modifies data
      ensures Valid() && (forall i: nat | i < msgLen :: Has(i) <==> old(Has(i)))
      ensures forall i: nat | i < msgLen ::
                At(i) == if off <= i < off + |body| then Incoming.ByteFor(off, body, i) else old(At(i))
    {
      forall i | 0 <= i < |body| {
        data[HM_HEADER_LENGTH + off + i] := body[i];
      }
      assert data[..HM_HEADER_LENGTH] == old(data[..HM_HEADER_LENGTH]);
      assert reassembly != null ==> reassembly[..] == old(reassembly[..]);
    }
  }
}
