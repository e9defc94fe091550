/**
  * The nanopb input stream (pb_decode.c). Each method is proved against what PbDecodeSpec and Varint say of
  * the bytes that are left.
  */
module PbInput {
  import Bits
  import opened Bytes
  import opened Varint
  import opened PbSchema
  import opened PbDecodeSpec

  lemma NoBytes()
    ensures FromLittleEndian([]) == 0 && Bits.Pow2(0) == 1
  {
  }

  lemma {:induction false} FromLittleEndianSnoc(s: seq<byte>, b: byte)
    ensures FromLittleEndian(s + [b]) == FromLittleEndian(s) + b * Bits.Pow2(8 * |s|)
  {
    if s != [] {
      FromLittleEndianSnoc(s[1..], b);
      assert (s + [b])[1..] == s[1..] + [b];
      Pow2Step8(8 * (|s| - 1));
      assert 256 * (b * Bits.Pow2(8 * (|s| - 1))) == b * (256 * Bits.Pow2(8 * (|s| - 1)));
    }
  }

  /** One more byte, above those put together so far */
  lemma ByteAbove(bytes: seq<byte>, i: nat, r: nat)
    requires i < |bytes| && r == FromLittleEndian(bytes[..i]) && r < Bits.Pow2(8 * i)
    ensures var r' := Bits.Or(r, Bits.Shl(bytes[i], 8 * i, 8 * |bytes|));
            r' == FromLittleEndian(bytes[..i + 1]) && r' < Bits.Pow2(8 * (i + 1))
  {
    hide FromLittleEndian, Bits.Or, Bits.Shl, Bits.Pow2;
    var p := Bits.Pow2(8 * i);
    Pow2Step8(8 * i);
    Bits.Pow2Monotonic(8 * (i + 1), 8 * |bytes|);
    assert bytes[i] * p <= 255 * p by {
      assert (255 - bytes[i]) * p >= 0;
    }
    OrAbove(r, bytes[i], 8 * i, 8 * |bytes|);
    FromLittleEndianSnoc(bytes[..i], bytes[i]);
    assert bytes[..i + 1] == bytes[..i] + [bytes[i]];
  }

  /** pb_istream_t over a memory buffer */
  class IStream {
    const buf: seq<byte>
    var state: nat
    var bytesLeft: nat

    ghost predicate Valid()
      reads this
    {
      state + bytesLeft <= |buf|
    }

    /** The bytes the stream can still give */
    ghost function Rest(): seq<byte>
      requires Valid()
      reads this
    {
      buf[state..state + bytesLeft]
    }

    ghost function End(): nat
      reads this
    {
      state + bytesLeft
    }

    /** pb_istream_from_buffer, and the copy of a stream that ends earlier */
    constructor (buf: seq<byte>, state: nat, bytesLeft: nat)
      requires state + bytesLeft <= |buf|
      ensures this.buf == buf && this.state == state && this.bytesLeft == bytesLeft
    {
      this.buf := buf;
      this.state := state;
      this.bytesLeft := bytesLeft;
    }

    /** pb_read */
    method Read(count: nat) returns (ok: bool, bytes: seq<byte>)
      requires Valid()
      modifies this
      ensures Valid() && End() == old(End())
      ensures match Take(old(Rest()), count)
              case Ok(s, rest) => ok && bytes == s && Rest() == rest
              case _ => !ok && Rest() == old(Rest())
    {
      if bytesLeft < count {
        return false, [];
      }
      bytes := buf[state..state + count];
      state := state + count;
      bytesLeft := bytesLeft - count;
      ok := true;
    }

    /** pb_readbyte */
    method ReadByte() returns (ok: bool, b: byte)
      requires Valid()
      modifies this
      ensures Valid() && End() == old(End())
      ensures ok == (old(Rest()) != [])
      ensures ok ==> b == old(Rest())[0] && Rest() == old(Rest())[1..]
      ensures !ok ==> Rest() == old(Rest())
    {
      if bytesLeft == 0 {
        return false, 0;
      }
      b := buf[state];
      state := state + 1;
      bytesLeft := bytesLeft - 1;
      ok := true;
    }

    /** pb_decode_varint32_eof */
    method DecodeVarint32Eof() returns (ok: bool, dest: nat, eof: bool)
      requires Valid()
      modifies this
      ensures Valid() && End() == old(End())
      ensures match Decode32(old(Rest()))
              case Ok(v, rest) => ok && dest == v && Rest() == rest
              case Eof => !ok && eof
              case Fail => !ok && !eof
    {
      hide Bits.Or, Bits.Shl;
      dest, eof := 0, false;
      var b;
      ghost var all := Rest();
      ok, b := ReadByte();
      if !ok {
        if bytesLeft == 0 {
          eof := true;
        }
        return;
      }
      if b / 0x80 == 0 {
        dest := b;
        return;
      }
      var bitpos: nat := 7;
      var result: nat := b % 0x80;
      var more := true;
      while more
        invariant Valid() && End() == old(End()) && !eof && bitpos < 0x100
        invariant more ==> Decode32(all) == Decode32From(Rest(), bitpos, result)
        invariant !more ==> Decode32(all) == if bitpos == 35 && b / 0x10 % 8 != 0 then Fail else Ok(result, Rest())
        decreases more, bytesLeft
      {
        ok, b := ReadByte();
        if !ok {
          return;
        }
        if bitpos >= 32 {
          var signExtension := if bitpos < 63 then 0xFF else 0x01;
          if b % 0x80 != 0 && (result / TWO31 == 0 || b != signExtension) {
            return false, 0, false;
          }
        } else {
          result := Bits.Or(result, Bits.Shl(b % 0x80, bitpos, 32));
        }
        bitpos := (bitpos + 7) % 0x100;
        more := b / 0x80 != 0;
      }
      if bitpos == 35 && b / 0x10 % 8 != 0 {
        return false, 0, false;
      }
      dest := result;
      ok := true;
    }

    /** pb_decode_varint */
    method DecodeVarint() returns (ok: bool, dest: nat)
      requires Valid()
      modifies this
      ensures Valid() && End() == old(End())
      ensures match Decode(old(Rest()))
              case Ok(v, rest) => ok && dest == v && v < TWO64 && Rest() == rest
              case _ => !ok
    {
      hide Bits.Or, Bits.Shl;
      ghost var all := Rest();
      DecodeBound(all, 0, 0);
      var bitpos: nat := 0;
      var result: nat := 0;
      var more := true;
      while more
        invariant Valid() && End() == old(End())
        invariant Decode(all) == if more then DecodeFrom(Rest(), bitpos, result) else Ok(result, Rest())
        decreases more, bytesLeft
      {
        if bitpos >= 64 {
          return false, 0;
        }
        var b;
        ok, b := ReadByte();
        if !ok {
          return false, 0;
        }
        result := Bits.Or(result, Bits.Shl(b % 0x80, bitpos, 64));
        bitpos := bitpos + 7;
        more := b / 0x80 != 0;
      }
      dest := result;
      ok := true;
    }

    /** pb_decode_svarint */
    method DecodeSvarint() returns (ok: bool, dest: int)
      requires Valid()
      modifies this
      ensures Valid() && End() == old(End())
      ensures match Decode(old(Rest()))
              case Ok(v, rest) => ok && v < TWO64 && dest == UnZigZag(v) && Rest() == rest
              case _ => !ok
    {
      hide DecodeFrom;
      var value;
      dest := 0;
      ok, value := DecodeVarint();
      if !ok {
        return;
      }
      if value % 2 == 1 {
        dest := AsSigned(Complement(value / 2));
      } else {
        dest := AsSigned(value / 2);
      }
    }

    /** pb_decode_fixed32 and pb_decode_fixed64, which differ in the number of bytes put together */
    method DecodeFixed(width: nat) returns (ok: bool, dest: nat)
      requires Valid()
      modifies this
      ensures Valid() && End() == old(End())
      ensures match Take(old(Rest()), width)
              case Ok(s, rest) => ok && dest == FromLittleEndian(s) && Rest() == rest
              case _ => !ok
    {
      hide FromLittleEndian, Bits.Or, Bits.Shl, Bits.Pow2;
      var bytes;
      dest := 0;
      ok, bytes := Read(width);
      if !ok {
        return;
      }
      assert FromLittleEndian(bytes[..0]) == 0 && Bits.Pow2(8 * 0) == 1 by { NoBytes(); }
      var i := 0;
      while i < width
        invariant i <= width && dest == FromLittleEndian(bytes[..i]) && dest < Bits.Pow2(8 * i)
        modifies {}
      {
        ByteAbove(bytes, i, dest);
        dest := Bits.Or(dest, Bits.Shl(bytes[i], 8 * i, 8 * width));
        i := i + 1;
      }
      assert bytes[..width] == bytes;
    }

    /** pb_decode_tag */
    method DecodeTag() returns (ok: bool, wireType: nat, tag: nat, eof: bool)
      requires Valid()
      modifies this
      ensures Valid() && End() == old(End())
      ensures match Decode32(old(Rest()))
              case Ok(key, rest) =>
                if key == 0 then !ok && eof else ok && wireType == key % 8 && tag == key / 8 && Rest() == rest
              case Eof => !ok && eof
              case Fail => !ok && !eof
    {
      hide Decode32;
      wireType, tag := 0, 0;
      var temp;
      ok, temp, eof := DecodeVarint32Eof();
      if !ok {
        return;
      }
      if temp == 0 {
        return false, 0, 0, true;
      }
      tag := temp / 8;
      wireType := temp % 8;
    }

    /** pb_skip_varint */
    method SkipVarintBytes() returns (ok: bool)
      requires Valid()
      modifies this
      ensures Valid() && End() == old(End())
      ensures match SkipVarint(old(Rest()))
              case Ok(_, rest) => ok && Rest() == rest
              case _ => !ok
    {
      var more := true;
      while more
        invariant Valid() && End() == old(End())
        invariant SkipVarint(old(Rest())) == if more then SkipVarint(Rest()) else Ok((), Rest())
        decreases more, bytesLeft
      {
        var bytes;
        ok, bytes := Read(1);
        if !ok {
          return;
        }
        more := bytes[0] / 0x80 != 0;
      }
      ok := true;
    }

    /** pb_skip_string */
    method SkipString() returns (ok: bool)
      requires Valid()
      modifies this
      ensures Valid() && End() == old(End())
      ensures match TakeDelimited(old(Rest()))
              case Ok(_, rest) => ok && Rest() == rest
              case _ => !ok
    {
      hide Decode32;
      var length, eof;
      ok, length, eof := DecodeVarint32Eof();
      if ok {
        var bytes;
        ok, bytes := Read(length);
      }
    }

    /** pb_skip_field */
    method SkipField(wireType: nat) returns (ok: bool)
      requires Valid()
      modifies this
      ensures Valid() && End() == old(End())
      ensures match Skip(old(Rest()), wireType)
              case Ok(_, rest) => ok && Rest() == rest
              case _ => !ok
    {
      hide SkipVarint, TakeDelimited;
      var bytes;
      if wireType == WT_VARINT {
        ok := SkipVarintBytes();
      } else if wireType == WT_64BIT {
        ok, bytes := Read(8);
      } else if wireType == WT_STRING {
        ok := SkipString();
      } else if wireType == WT_32BIT {
        ok, bytes := Read(4);
      } else {
        ok := false;
      }
    }

    /**
      * pb_make_string_substream. Until the substream is closed, this stream stays where the contents begin,
      * with what follows them counted as left.
      */
    method MakeStringSubstream() returns (ok: bool, substream: IStream)
      requires Valid()
      modifies this
      ensures Valid() && substream.Valid() && fresh(substream) && substream.buf == buf && End() <= old(End())
      ensures match TakeDelimited(old(Rest()))
              case Ok(s, rest) =>
                && ok && substream.Rest() == s && bytesLeft == |rest|
                && substream.End() + bytesLeft == old(End())
                && buf[substream.End()..old(End())] == rest
              case _ => !ok
    {
      hide Decode32;
      var size, eof;
      ok, size, eof := DecodeVarint32Eof();
      substream := new IStream(buf, state, bytesLeft);
      if !ok {
        return;
      }
      if substream.bytesLeft < size {
        return false, substream;
      }
      substream.bytesLeft := size;
      bytesLeft := bytesLeft - size;
    }

    /** pb_close_string_substream */
    method CloseStringSubstream(substream: IStream) returns (ok: bool)
      requires Valid() && substream.Valid() && substream != this && substream.buf == buf
      requires substream.End() + bytesLeft <= |buf|
      modifies this, substream
      ensures ok && Valid() && state == old(substream.End()) && bytesLeft == old(bytesLeft)
    {
      ok := true;
      if substream.bytesLeft != 0 {
        var bytes;
        ok, bytes := substream.Read(substream.bytesLeft);
        if !ok {
          return;
        }
      }
      state := substream.state;
    }
  }
}
