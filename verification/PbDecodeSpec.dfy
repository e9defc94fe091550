/** What pb_decode makes of a byte string (pb_decode.c), on values. */
module PbDecodeSpec {
  import Bits
  import opened Bytes
  import opened Varint
  import opened PbSchema

  /** pb_read of `n` bytes */
  function Take(bs: seq<byte>, n: nat): Parse<seq<byte>> {
    if |bs| < n then Fail else Ok(bs[..n], bs[n..])
  }

  /** A length from the stream, and that many bytes (pb_make_string_substream) */
  function TakeDelimited(bs: seq<byte>): (p: Parse<seq<byte>>)
    ensures p.Ok? ==> |p.rest| < |bs| && |p.value| < |bs|
  {
    match Decode32(bs)
    case Ok(size, rest) => Decode32Shrinks(bs); Take(rest, size)
    case _ => Fail
  }

  lemma Decode32Shrinks(bs: seq<byte>)
    ensures Decode32(bs).Ok? ==> |Decode32(bs).rest| < |bs|
  {
    if bs != [] {
      Decode32FromShrinks(bs[1..], 7, bs[0] % 0x80);
    }
  }

  lemma {:induction false} Decode32FromShrinks(bs: seq<byte>, bitpos: nat, result: nat)
    ensures Decode32From(bs, bitpos, result).Ok? ==> |Decode32From(bs, bitpos, result).rest| < |bs|
    decreases |bs|
  {
    if bs != [] {
      var result' := if bitpos >= 32 then result else Bits.Or(result, Bits.Shl(bs[0] % 0x80, bitpos, 32));
      Decode32FromShrinks(bs[1..], (bitpos + 7) % 0x100, result');
    }
  }

  /** What the 32-bit decoder reads is a 32-bit number. */
  lemma Decode32Bound(bs: seq<byte>)
    ensures Decode32(bs).Ok? ==> Decode32(bs).value < TWO32
  {
    if bs != [] {
      Decode32FromBound(bs[1..], 7, bs[0] % 0x80);
    }
  }

  lemma {:induction false} Decode32FromBound(bs: seq<byte>, bitpos: nat, result: nat)
    requires result < TWO32
    ensures Decode32From(bs, bitpos, result).Ok? ==> Decode32From(bs, bitpos, result).value < TWO32
    decreases |bs|
  {
    hide Bits.Or, Bits.Pow2;
    if bs != [] {
      WordSizes();
      var g := Bits.Shl(bs[0] % 0x80, bitpos, 32);
      Bits.OrBound(result, g, 32);
      Decode32FromBound(bs[1..], (bitpos + 7) % 0x100, if bitpos >= 32 then result else Bits.Or(result, g));
    }
  }

  // Single items (the pb_dec_* functions)

  /** The conversion of an integer to a signed type of `size` bytes */
  function Narrow(i: int, size: nat): int {
    (i + HalfRange(size)) % (2 * HalfRange(size)) - HalfRange(size)
  }

  function FromLittleEndian(s: seq<byte>): nat {
    if s == [] then 0 else s[0] + 256 * FromLittleEndian(s[1..])
  }

  /** pb_dec_varint: fields of 32 bits and less take the low 32 bits first, then must hold the result. */
  function VarintItem(value: nat, size: nat): Option<int>
    requires value < TWO64
  {
    var svalue := if size == 8 then AsSigned(value) else Narrow(value, 4);
    if IntWidth(size) && Narrow(svalue, size) == svalue then Some(svalue) else None
  }

  function UvarintItem(value: nat, size: nat): Option<int> {
    if IntWidth(size) && value % (2 * HalfRange(size)) == value then Some(value) else None
  }

  function SvarintItem(value: nat, size: nat): Option<int>
    requires value < TWO64
  {
    var svalue := UnZigZag(value);
    if IntWidth(size) && Narrow(svalue, size) == svalue then Some(svalue) else None
  }

  function IntItem(item: Option<int>, rest: seq<byte>): Parse<Value> {
    if item.Some? then Ok(Int(item.value), rest) else Fail
  }

  /** An item of a type other than a submessage */
  function DecodeScalar(f: Field, bs: seq<byte>): Parse<Value> {
    match f.ltype
    case VARINT =>
      (match Decode(bs)
       case Ok(value, rest) => DecodeBound(bs, 0, 0); IntItem(VarintItem(value, f.dataSize), rest)
       case _ => Fail)
    case UVARINT =>
      (match Decode(bs)
       case Ok(value, rest) => IntItem(UvarintItem(value, f.dataSize), rest)
       case _ => Fail)
    case SVARINT =>
      (match Decode(bs)
       case Ok(value, rest) => DecodeBound(bs, 0, 0); IntItem(SvarintItem(value, f.dataSize), rest)
       case _ => Fail)
    case FIXED32 =>
      (match Take(bs, 4)
       case Ok(s, rest) => Ok(Int(FromLittleEndian(s)), rest)
       case _ => Fail)
    case FIXED64 =>
      (match Take(bs, 8)
       case Ok(s, rest) => Ok(Int(FromLittleEndian(s)), rest)
       case _ => Fail)
    case BYTES =>
      (match Decode32(bs)
       case Ok(size, rest) => if size > SIZE_MAX || size + BYTES_OFFSET > f.dataSize then Fail else RawItem(Take(rest, size))
       case _ => Fail)
    case STRING =>
      (match Decode32(bs)
       case Ok(size, rest) => if size + 1 > f.dataSize then Fail else StringItem(Take(rest, size))
       case _ => Fail)
    case FIXED_LENGTH_BYTES =>
      (match Decode32(bs)
       case Ok(size, rest) =>
         if size > SIZE_MAX then Fail
         else if size == 0 then Ok(Raw(Zeros(f.dataSize)), rest)
         else if size != f.dataSize then Fail
         else RawItem(Take(rest, f.dataSize))
       case _ => Fail)
    case SUBMESSAGE(_) => Fail
    case EXTENSION => Fail
  }

  function RawItem(p: Parse<seq<byte>>): Parse<Value> {
    match p
    case Ok(s, rest) => Ok(Raw(s), rest)
    case _ => Fail
  }

  /** The characters before the first zero: how C reads a buffer with a terminator after s */
  function CString(s: seq<byte>): (c: seq<byte>)
    ensures c <= s && 0 !in c && (|c| < |s| ==> s[|c|] == 0)
  {
    if s == [] || s[0] == 0 then [] else [s[0]] + CString(s[1..])
  }

  function StringItem(p: Parse<seq<byte>>): Parse<Value> {
    match p
    case Ok(s, rest) => Ok(Raw(CString(s)), rest)
    case _ => Fail
  }

  /** What the 64-bit decoder reads is a 64-bit number. */
  lemma {:induction false} DecodeBound(bs: seq<byte>, bitpos: nat, result: nat)
    requires result < TWO64
    ensures DecodeFrom(bs, bitpos, result).Ok? ==> DecodeFrom(bs, bitpos, result).value < TWO64
    decreases |bs|
  {
    if bitpos < 64 && bs != [] {
      var g := Bits.Shl(bs[0] % 0x80, bitpos, 64);
      WordSizes();
      Bits.OrBound(result, g, 64);
      DecodeBound(bs[1..], bitpos + 7, Bits.Or(result, g));
    }
  }

  /** Every item but a submessage takes at least one byte. */
  lemma DecodeScalarShrinks(f: Field, bs: seq<byte>)
    ensures DecodeScalar(f, bs).Ok? ==> |DecodeScalar(f, bs).rest| < |bs|
  {
    hide DecodeFrom, Decode32, FromLittleEndian, VarintItem, UvarintItem, SvarintItem, Zeros, CString;
    DecodeShrinks(bs, 0, 0);
    Decode32Shrinks(bs);
  }

  lemma {:induction false} DecodeShrinks(bs: seq<byte>, bitpos: nat, result: nat)
    ensures DecodeFrom(bs, bitpos, result).Ok? ==> |DecodeFrom(bs, bitpos, result).rest| < |bs|
    decreases |bs|
  {
    if bitpos < 64 && bs != [] {
      DecodeShrinks(bs[1..], bitpos + 7, Bits.Or(result, Bits.Shl(bs[0] % 0x80, bitpos, 64)));
    }
  }

  // Skipping (pb_skip_field)

  function SkipVarint(bs: seq<byte>): Parse<()>
    decreases |bs|
  {
    if bs == [] then Fail else if bs[0] >= 0x80 then SkipVarint(bs[1..]) else Ok((), bs[1..])
  }

  function Skip(bs: seq<byte>, wireType: nat): Parse<()> {
    if wireType == WT_VARINT then SkipVarint(bs)
    else if wireType == WT_64BIT then Skipped(Take(bs, 8))
    else if wireType == WT_STRING then Skipped(TakeDelimited(bs))
    else if wireType == WT_32BIT then Skipped(Take(bs, 4))
    else Fail
  }

  function Skipped(p: Parse<seq<byte>>): Parse<()> {
    match p
    case Ok(_, rest) => Ok((), rest)
    case _ => Fail
  }

  lemma {:induction false} SkipShrinks(bs: seq<byte>, wireType: nat)
    ensures Skip(bs, wireType).Ok? ==> |Skip(bs, wireType).rest| < |bs|
    decreases |bs|
  {
    Decode32Shrinks(bs);
    if bs != [] && bs[0] >= 0x80 {
      SkipShrinks(bs[1..], WT_VARINT);
    }
  }

  // Messages

  /** PB_MAX_REQUIRED_FIELDS */
  const MAX_REQUIRED: nat := 64

  /** How many required fields there are among the first n: the iterator's required_field_index at field n. */
  function RequiredBefore(fields: seq<Field>, n: nat): (k: nat)
    requires n <= |fields|
    ensures k <= n
  {
    if n == 0 then 0 else RequiredBefore(fields, n - 1) + (if fields[n - 1].htype == REQUIRED then 1 else 0)
  }

  /** The field with the tag, when there is one */
  function Find(fields: seq<Field>, tag: nat): (i: Option<nat>)
    ensures i.Some? ==> i.value < |fields| && fields[i.value].tag == tag
    ensures i.None? ==> forall f <- fields :: f.tag != tag
  {
    if fields == [] then None
    else
      var n := |fields| - 1;
      match Find(fields[..n], tag)
      case Some(i) => Some(i)
      case None => if fields[n].tag == tag then Some(n) else None
  }

  /** The struct and the required fields met so far */
  datatype Progress = Progress(vals: seq<FieldVal>, seen: set<nat>)

  /** Storing into a member of a oneof takes the union away from the other members. */
  function Store(fields: seq<Field>, vals: seq<FieldVal>, i: nat, fv: FieldVal): (r: seq<FieldVal>)
    requires |vals| == |fields| && i < |fields|
    ensures |r| == |vals|
    ensures forall j | 0 <= j < |r| ::
              r[j] == if j == i then fv else if SameUnion(fields[i], fields[j]) then Opt(None) else vals[j]
  {
    seq(|vals|, j requires 0 <= j < |vals| =>
      if j == i then fv else if SameUnion(fields[i], fields[j]) then Opt(None) else vals[j])
  }

  /** One turn of the loop of pb_decode_noinit: a field was taken, the message ended by a zero tag, or it is bad. */
  datatype Turn = Took(p: Progress, rest: seq<byte>) | Ended | Bad

  /** The item already there, which a submessage is merged into */
  function Current(f: Field, fv: FieldVal): Value {
    match fv
    case One(v) => v
    case Opt(o) => if o.Some? then o.value else DefaultValue(f)
    case Many(_) => DefaultValue(f)
  }

  /** What a submessage is decoded into: an array entry starts from defaults, others from what is there. */
  function SubmessageStart(f: Field, cur: Value): (vals: seq<FieldVal>)
    requires f.ltype.SUBMESSAGE?
    ensures |vals| == |f.ltype.fields|
  {
    if f.htype != REPEATED && cur.Msg? && |cur.vals| == |f.ltype.fields| then cur.vals else Defaults(f.ltype.fields)
  }

  /** The pb_dec_* function of the data type of f; `cur` is what the destination holds. */
  function DecodeItem(f: Field, bs: seq<byte>, cur: Value): (p: Parse<Value>)
    ensures p.Ok? ==> |p.rest| < |bs|
    decreases |bs|, 0
  {
    if f.ltype.SUBMESSAGE? then
      var sub := f.ltype.fields;
      match TakeDelimited(bs)
      case Ok(inner, rest) =>
        (match DecodeNoinit(sub, inner, SubmessageStart(f, cur))
         case Some(vals) => Ok(Msg(vals), rest)
         case None => Fail)
      case _ => Fail
    else
      DecodeScalarShrinks(f, bs);
      DecodeScalar(f, bs)
  }

  /** The loop over a packed array: items until the array is full or the bytes are used up, with none left over */
  function DecodePacked(f: Field, bs: seq<byte>, vs: seq<Value>): Option<seq<Value>>
    decreases |bs|
  {
    if bs == [] then Some(vs)
    else if |vs| >= f.arraySize then None
    else
      DecodeScalarShrinks(f, bs);
      match DecodeScalar(f, bs)
      case Ok(v, rest) => DecodePacked(f, rest, vs + [v])
      case _ => None
  }

  /** decode_static_field */
  function DecodeField(f: Field, wireType: nat, bs: seq<byte>, fv: FieldVal): (p: Parse<FieldVal>)
    ensures p.Ok? ==> |p.rest| < |bs|
    decreases |bs|, 1
  {
    match f.htype
    case REQUIRED =>
      (match DecodeItem(f, bs, Current(f, fv))
       case Ok(v, rest) => Ok(One(v), rest)
       case _ => Fail)
    case OPTIONAL =>
      (match DecodeItem(f, bs, Current(f, fv))
       case Ok(v, rest) => Ok(if f.HasFlag() then Opt(Some(v)) else One(v), rest)
       case _ => Fail)
    case ONEOF(_) =>
      // a submessage member is cleared to its defaults first
      (match DecodeItem(f, bs, DefaultValue(f))
       case Ok(v, rest) => Ok(Opt(Some(v)), rest)
       case _ => Fail)
    case REPEATED =>
      var vs := if fv.Many? then fv.vs else [];
      if wireType == WT_STRING && f.ltype.Packable() then
        match TakeDelimited(bs)
        case Ok(inner, rest) =>
          (match DecodePacked(f, inner, vs)
           case Some(vs') => Ok(Many(vs'), rest)
           case None => Fail)
        case _ => Fail
      else if |vs| >= f.arraySize then Fail
      else
        match DecodeItem(f, bs, DefaultValue(f))
        case Ok(v, rest) => Ok(Many(vs + [v]), rest)
        case _ => Fail
  }

  /** One turn of the loop of pb_decode_noinit */
  function TakeField(fields: seq<Field>, bs: seq<byte>, p: Progress): (t: Turn)
    requires |p.vals| == |fields|
    ensures t.Took? ==> |t.rest| < |bs| && |t.p.vals| == |fields|
    decreases |bs|, 2
  {
    match Decode32(bs)
    case Eof => Ended
    case Fail => Bad
    case Ok(key, rest) =>
      Decode32Shrinks(bs);
      if key == 0 then Ended
      else
        var tag, wireType := key / 8, key % 8;
        match Find(fields, tag)
        case None =>
          // an empty field list takes tag 0 for its end entry, and fails
          if fields == [] && tag == 0 then Bad
          else
            SkipShrinks(rest, wireType);
            (match Skip(rest, wireType)
             case Ok(_, rest') => Took(p, rest')
             case _ => Bad)
        case Some(i) =>
          var k := RequiredBefore(fields, i);
          var seen := if fields[i].htype == REQUIRED && k < MAX_REQUIRED then p.seen + {k} else p.seen;
          match DecodeField(fields[i], wireType, rest, p.vals[i])
          case Ok(fv, rest') => Took(Progress(Store(fields, p.vals, i, fv), seen), rest')
          case _ => Bad
  }

  /** The loop of pb_decode_noinit */
  function TakeFields(fields: seq<Field>, bs: seq<byte>, p: Progress): (r: Option<Progress>)
    requires |p.vals| == |fields|
    ensures r.Some? ==> |r.value.vals| == |fields|
    decreases |bs|, 3
  {
    if bs == [] then Some(p)
    else
      match TakeField(fields, bs, p)
      case Took(p', rest) => TakeFields(fields, rest, p')
      case Ended => Some(p)
      case Bad => None
  }

  /** Each of the first 64 required fields has been met. */
  predicate RequiredMet(fields: seq<Field>, seen: set<nat>) {
    forall k: nat | k < RequiredBefore(fields, |fields|) && k < MAX_REQUIRED :: k in seen
  }

  /** pb_decode_noinit, into a struct that holds `vals` */
  function DecodeNoinit(fields: seq<Field>, bs: seq<byte>, vals: seq<FieldVal>): (r: Option<seq<FieldVal>>)
    requires |vals| == |fields|
    ensures r.Some? ==> |r.value| == |fields|
    decreases |bs|, 4
  {
    match TakeFields(fields, bs, Progress(vals, {}))
    case None => None
    case Some(p) => if RequiredMet(fields, p.seen) then Some(p.vals) else None
  }

  /** pb_decode */
  function DecodeMessage(fields: seq<Field>, bs: seq<byte>): (r: Option<seq<FieldVal>>) {
    DecodeNoinit(fields, bs, Defaults(fields))
  }
}
