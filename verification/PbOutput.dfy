/**
  * The nanopb encoder at work on its output stream (pb_encode.c). Each method is proved against the bytes
  * that PbEncodeSpec says it adds, for streams that write to a buffer and for streams that only count.
  */
module PbOutput {
  import Bits
  import opened Bytes
  import opened Varint
  import opened PbSchema
  import opened PbEncodeSpec
  import opened PbIterator

  /** The state of a stream, with the contents of its buffer */
  datatype Out = Out(sizing: bool, buf: seq<byte>, state: nat, maxSize: nat, bytesWritten: nat)
  {
    /** The buffer has room for what the stream may still write. */
    predicate Valid() {
      !sizing ==> bytesWritten <= maxSize && state + maxSize - bytesWritten <= |buf|
    }
  }

  function Overwrite(buf: seq<byte>, at: nat, s: seq<byte>): (r: seq<byte>)
    requires at + |s| <= |buf|
    ensures |r| == |buf|
  {
    buf[..at] + s + buf[at + |s|..]
  }

  /**
    * What became of an attempt to add the bytes of `e` to a stream. It succeeds if and only if there are
    * such bytes and, for a stream with a buffer, room for them; then exactly these are written. Otherwise
    * nothing is touched outside the part of the buffer that the stream may write.
    */
  ghost predicate Wrote(a: Out, b: Out, e: Option<seq<byte>>, ok: bool) {
    && a.Valid() && b.Valid()
    && b.sizing == a.sizing && b.maxSize == a.maxSize && |b.buf| == |a.buf|
    && ok == (e.Some? && (a.sizing || a.bytesWritten + |e.value| <= a.maxSize))
    && (a.sizing ==> b.buf == a.buf)
    && (ok ==>
          && b.bytesWritten == a.bytesWritten + |e.value|
          && (!a.sizing ==> b.state == a.state + |e.value| && b.buf == Overwrite(a.buf, a.state, e.value)))
    && (!ok && !a.sizing ==>
          forall i | 0 <= i < |a.buf| && !(a.state <= i < a.state + a.maxSize - a.bytesWritten) :: b.buf[i] == a.buf[i])
  }

  function Concat(e: Option<seq<byte>>, t: Option<seq<byte>>): Option<seq<byte>> {
    if e.Some? && t.Some? then Some(e.value + t.value) else None
  }

  lemma OverwriteTwice(buf: seq<byte>, at: nat, s: seq<byte>, t: seq<byte>)
    requires at + |s| + |t| <= |buf|
    ensures Overwrite(Overwrite(buf, at, s), at + |s|, t) == Overwrite(buf, at, s + t)
  {
  }

  /** One after the other */
  lemma WroteBoth(a: Out, b: Out, c: Out, e: Option<seq<byte>>, t: Option<seq<byte>>, ok: bool)
    requires Wrote(a, b, e, true) && Wrote(b, c, t, ok)
    ensures Wrote(a, c, Concat(e, t), ok)
  {
    hide Overwrite;
    if !a.sizing && ok {
      OverwriteTwice(a.buf, a.state, e.value, t.value);
    }
    if !a.sizing && !ok {
      forall i | 0 <= i < |a.buf| && !(a.state <= i < a.state + a.maxSize - a.bytesWritten) ensures c.buf[i] == a.buf[i] {
        assert c.buf[i] == b.buf[i];
        OverwriteOutside(a.buf, a.state, e.value, i);
      }
    }
  }

  lemma OverwriteNext(buf: seq<byte>, at: nat, data: seq<byte>, i: nat)
    requires at + |data| <= |buf| && i < |data|
    ensures Overwrite(buf, at, data[..i])[at + i := data[i]] == Overwrite(buf, at, data[..i + 1])
  {
  }

  lemma EncodeFirst(v: nat)
    ensures Encode(v) == if v < 0x80 then [v] else [0x80 + v % 0x80] + Encode(v / 0x80)
  {
  }

  lemma OverwriteOutside(buf: seq<byte>, at: nat, s: seq<byte>, i: nat)
    requires at + |s| <= |buf| && i < |buf| && !(at <= i < at + |s|)
    ensures Overwrite(buf, at, s)[i] == buf[i]
  {
  }

  /** When the first part fails, so does the whole. */
  lemma WroteNothingMore(a: Out, b: Out, e: Option<seq<byte>>, t: Option<seq<byte>>)
    requires Wrote(a, b, e, false)
    ensures Wrote(a, b, Concat(e, t), false)
  {
  }

  lemma WroteEmpty(a: Out)
    requires a.Valid()
    ensures Wrote(a, a, Some([]), true)
  {
    if !a.sizing {
      assert Overwrite(a.buf, a.state, []) == a.buf;
    }
  }

  /** pb_ostream_t: a stream over a memory buffer, or with `sizing` one that has no callback and only counts */
  class OStream {
    const sizing: bool
    const buf: array<byte>
    var state: nat
    var maxSize: nat
    var bytesWritten: nat

    ghost function Now(): Out
      reads this, buf
    {
      Out(sizing, buf[..], state, maxSize, bytesWritten)
    }

    ghost predicate Valid()
      reads this, buf
    {
      Now().Valid()
    }

    /** A stream in a given state; pb_ostream_from_buffer starts with nothing written. */
    constructor (sizing: bool, buf: array<byte>, state: nat, maxSize: nat)
      requires !sizing ==> state + maxSize <= buf.Length
      ensures Valid() && Now() == Out(sizing, buf[..], state, maxSize, 0)
      ensures this.buf == buf
    {
      this.sizing := sizing;
      this.buf := buf;
      this.state := state;
      this.maxSize := maxSize;
      bytesWritten := 0;
    }

    /** buf_write */
    method BufWrite(data: seq<byte>)
      requires state + |data| <= buf.Length
      modifies this`state, buf
      ensures state == old(state) + |data| && buf[..] == Overwrite(old(buf[..]), old(state), data)
    {
      var dest := state;
      state := dest + |data|;
      var i := 0;
      while i < |data|
        invariant i <= |data| && state == dest + |data|
        invariant buf[..] == Overwrite(old(buf[..]), dest, data[..i])
      {
        OverwriteNext(old(buf[..]), dest, data, i);
        buf[dest + i] := data[i];
        i := i + 1;
      }
      assert data[..|data|] == data;
    }

    /** pb_write; a counting stream needs only the number of bytes. */
    method Write(data: Option<seq<byte>>, count: nat) returns (ok: bool)
      requires Valid() && (data.Some? ==> |data.value| == count) && (data.None? ==> sizing)
      modifies this, buf
      ensures Valid()
      ensures data.Some? ==> Wrote(old(Now()), Now(), data, ok)
      ensures sizing ==> ok && Now() == old(Now()).(bytesWritten := old(bytesWritten) + count)
    {
      if !sizing {
        if bytesWritten + count > maxSize {
          return false;
        }
        BufWrite(data.value);
      }
      bytesWritten := bytesWritten + count;
      ok := true;
    }

    /** pb_encode_varint */
    method EncodeVarint(v: nat) returns (ok: bool)
      requires Valid() && v < TWO64
      modifies this, buf
      ensures Valid() && Wrote(old(Now()), Now(), Some(Encode(v)), ok)
    {
      hide Wrote, Encode;
      if v <= 0x7F {
        OneByte(v);
        ok := Write(Some([v]), 1);
        return;
      }
      var buffer, i := VarintBytes(v);
      ok := Write(Some(buffer[..i]), i);
    }

    /** The loop of pb_encode_varint, for numbers of more than one byte */
    static method VarintBytes(v: nat) returns (buffer: array<byte>, i: nat)
      requires 0x7F < v < TWO64
      ensures fresh(buffer) && i <= buffer.Length && buffer[..i] == Encode(v)
    {
      hide Encode;
      TenBytes(v);
      buffer := new byte[10];
      var value: nat := v;
      i := 0;
      while value != 0
        invariant value > 0 ==> i + |Encode(value)| <= 10 && buffer[..i] + Encode(value) == Encode(v)
        invariant value == 0 ==> 0 < i <= 10 && buffer[i - 1] >= 0x80 && buffer[..i - 1] + [buffer[i - 1] - 0x80] == Encode(v)
      {
        ghost var done := buffer[..i];
        EncodeFirst(value);
        buffer[i] := value % 0x80 + 0x80;
        assert buffer[..i] == done;
        assert buffer[..i + 1] == done + [buffer[i]];
        value := value / 0x80;
        i := i + 1;
      }
      ghost var top := buffer[i - 1];
      ghost var done := buffer[..i - 1];
      buffer[i - 1] := buffer[i - 1] % 0x80;
      assert top % 0x80 == top - 0x80;
      assert buffer[..i] == done + [top - 0x80];
    }

    /** pb_encode_svarint */
    method EncodeSvarint(v: int) returns (ok: bool)
      requires Valid() && SignedFits(v, 8)
      modifies this, buf
      ensures Valid() && Wrote(old(Now()), Now(), Some(Encode(ZigZag(v))), ok)
    {
      hide Wrote;
      var zigzagged := 2 * AsUnsigned(v) % TWO64;
      if v < 0 {
        zigzagged := Complement(zigzagged);
      }
      ok := EncodeVarint(zigzagged);
    }

    /** pb_encode_fixed32 */
    method EncodeFixed32(v: nat) returns (ok: bool)
      requires Valid() && v < TWO32
      modifies this, buf
      ensures Valid() && Wrote(old(Now()), Now(), Some(LittleEndian(v, 4)), ok)
    {
      hide Wrote;
      var bytes := [v % 256, v / 0x100 % 256, v / 0x1_0000 % 256, v / 0x100_0000 % 256];
      FourBytes(v);
      ok := Write(Some(bytes), 4);
    }

    /** pb_encode_fixed64 */
    method EncodeFixed64(v: nat) returns (ok: bool)
      requires Valid() && v < TWO64
      modifies this, buf
      ensures Valid() && Wrote(old(Now()), Now(), Some(LittleEndian(v, 8)), ok)
    {
      hide Wrote, LittleEndian;
      var high := v / TWO32;
      var bytes := [v % 256, v / 0x100 % 256, v / 0x1_0000 % 256, v / 0x100_0000 % 256,
                    high % 256, high / 0x100 % 256, high / 0x1_0000 % 256, high / 0x100_0000 % 256];
      EightBytes(v);
      ok := Write(Some(bytes), 8);
    }

    /** pb_encode_tag */
    method EncodeTag(wireType: nat, fieldNumber: nat) returns (ok: bool)
      requires Valid() && wireType < 8 && fieldNumber < TWO32
      modifies this, buf
      ensures Valid() && Wrote(old(Now()), Now(), Some(Tag(wireType, fieldNumber)), ok)
    {
      hide Wrote;
      ok := EncodeVarint(8 * fieldNumber + wireType);
    }

    /** pb_encode_tag_for_field */
    method EncodeTagForField(f: Field) returns (ok: bool)
      requires Valid() && FieldOk(f)
      modifies this, buf
      ensures Valid() && Wrote(old(Now()), Now(), Some(Tag(WireType(f.ltype), f.tag)), ok)
    {
      hide Wrote, Tag;
      var wireType;
      match f.ltype {
        case VARINT => wireType := WT_VARINT;
        case UVARINT => wireType := WT_VARINT;
        case SVARINT => wireType := WT_VARINT;
        case FIXED32 => wireType := WT_32BIT;
        case FIXED64 => wireType := WT_64BIT;
        case BYTES => wireType := WT_STRING;
        case STRING => wireType := WT_STRING;
        case SUBMESSAGE(_) => wireType := WT_STRING;
        case FIXED_LENGTH_BYTES => wireType := WT_STRING;
      }
      ok := EncodeTag(wireType, f.tag);
    }

    /** pb_encode_string */
    method EncodeString(s: seq<byte>, size: nat) returns (ok: bool)
      requires Valid() && size <= |s| && size < TWO64
      modifies this, buf
      ensures Valid() && Wrote(old(Now()), Now(), Some(Delimited(s[..size])), ok)
    {
      hide Wrote, Encode;
      ok := EncodeVarint(size);
      ghost var mid := Now();
      if !ok {
        WroteNothingMore(old(Now()), mid, Some(Encode(size)), Some(s[..size]));
        return;
      }
      ok := Write(Some(s[..size]), size);
      WroteBoth(old(Now()), mid, Now(), Some(Encode(size)), Some(s[..size]), ok);
    }
  }

  lemma FourBytes(v: nat)
    requires v < TWO32
    ensures LittleEndian(v, 4) == [v % 256, v / 0x100 % 256, v / 0x1_0000 % 256, v / 0x100_0000 % 256]
  {
    assert v / 0x100 / 0x100 == v / 0x1_0000 && v / 0x1_0000 / 0x100 == v / 0x100_0000;
    assert LittleEndian(v / 0x100_0000, 1) == [v / 0x100_0000 % 256];
    assert LittleEndian(v / 0x1_0000, 2) == [v / 0x1_0000 % 256] + LittleEndian(v / 0x100_0000, 1);
    assert LittleEndian(v / 0x100, 3) == [v / 0x100 % 256] + LittleEndian(v / 0x1_0000, 2);
  }

  lemma EightBytes(v: nat)
    requires v < TWO64
    ensures var high := v / TWO32;
            LittleEndian(v, 8) == [v % 256, v / 0x100 % 256, v / 0x1_0000 % 256, v / 0x100_0000 % 256,
                                   high % 256, high / 0x100 % 256, high / 0x1_0000 % 256, high / 0x100_0000 % 256]
  {
    var high := v / TWO32;
    FourBytes(high);
    assert v / 0x100 / 0x100 == v / 0x1_0000 && v / 0x1_0000 / 0x100 == v / 0x100_0000 && v / 0x100_0000 / 0x100 == high;
    assert LittleEndian(v / 0x100_0000, 5) == [v / 0x100_0000 % 256] + LittleEndian(high, 4);
    assert LittleEndian(v / 0x1_0000, 6) == [v / 0x1_0000 % 256] + LittleEndian(v / 0x100_0000, 5);
    assert LittleEndian(v / 0x100, 7) == [v / 0x100 % 256] + LittleEndian(v / 0x1_0000, 6);
  }
}
