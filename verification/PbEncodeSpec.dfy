/** The bytes pb_encode writes for a struct (pb_encode.c), or none when it reports an error of its own. */
module PbEncodeSpec {
  import opened Bytes
  import opened Varint
  import opened PbSchema

  /** pb_encode_tag: `(field_number << 3) | wiretype` as a varint */
  function Tag(wireType: nat, tag: nat): seq<byte> {
    Encode(8 * tag + wireType)
  }

  /** The wire type pb_encode_tag_for_field picks */
  function WireType(lt: LType): nat {
    match lt
    case VARINT => WT_VARINT
    case UVARINT => WT_VARINT
    case SVARINT => WT_VARINT
    case FIXED32 => WT_32BIT
    case FIXED64 => WT_64BIT
    case _ => WT_STRING
  }

  /** The `width` low little-endian bytes of n */
  function LittleEndian(n: nat, width: nat): (s: seq<byte>)
    ensures |s| == width
  {
    if width == 0 then [] else [n % 256] + LittleEndian(n / 256, width - 1)
  }

  /** pb_encode_string: a length, and that many bytes */
  function Delimited(s: seq<byte>): seq<byte> {
    Encode(|s|) + s
  }

  /** The pb_enc_* function of the data type of f: an item without its tag */
  function EncodeValue(f: Field, v: Value): Option<seq<byte>>
    requires TypedValue(f, v)
    decreases f, 0
  {
    match f.ltype
    case VARINT => Some(Encode(AsUnsigned(v.i)))
    case UVARINT => Some(Encode(v.i))
    case SVARINT => Some(Encode(ZigZag(v.i)))
    case FIXED32 => Some(LittleEndian(v.i, 4))
    case FIXED64 => Some(LittleEndian(v.i, 8))
    case BYTES => if |v.bytes| + BYTES_OFFSET > f.dataSize then None else Some(Delimited(v.bytes))
    case STRING => Some(Delimited(v.bytes))
    case FIXED_LENGTH_BYTES => Some(Delimited(v.bytes))
    case SUBMESSAGE(sub) =>
      (match EncodeFields(sub, v.vals)
       case None => None
       case Some(s) => Some(Delimited(s)))
  }

  /** pb_check_proto3_default_value for a proto3 singular field */
  predicate IsDefault(f: Field, v: Value)
    requires TypedValue(f, v)
    decreases f, 0
  {
    match f.ltype
    case BYTES => v.bytes == []
    case STRING => v.bytes == []
    case FIXED_LENGTH_BYTES => f.dataSize == 0
    case SUBMESSAGE(sub) => AllDefault(sub, v.vals)
    case VARINT => v.i == 0
    case UVARINT => v.i == 0
    case SVARINT => v.i == 0
    case FIXED32 => v.i == 0
    case FIXED64 => v.i == 0
  }

  /** pb_check_proto3_default_value for a field inside a proto3 submessage */
  predicate IsDefaultField(f: Field, fv: FieldVal)
    requires TypedField(f, fv)
    decreases f, 1
  {
    match f.htype
    case REQUIRED => false
    case REPEATED => fv.vs == []
    case ONEOF(_) => fv.o.None?
    case OPTIONAL => if f.HasFlag() then fv.o.None? else IsDefault(f, fv.v)
  }

  /** The loop over the fields of a submessage */
  predicate AllDefault(fields: seq<Field>, vals: seq<FieldVal>)
    requires Typed(fields, vals)
    decreases fields
  {
    fields == [] || (IsDefaultField(fields[0], vals[0]) && AllDefault(fields[1..], vals[1..]))
  }

  /** A tag and an item */
  function EncodeItem(f: Field, v: Value): Option<seq<byte>>
    requires TypedValue(f, v)
    decreases f, 1
  {
    match EncodeValue(f, v)
    case None => None
    case Some(s) => Some(Tag(WireType(f.ltype), f.tag) + s)
  }

  /** Items one after the other, each with its tag when `tagged` */
  function EncodeItems(f: Field, vs: seq<Value>, tagged: bool): Option<seq<byte>>
    requires forall v <- vs :: TypedValue(f, v)
    decreases f, 2, |vs|
  {
    if vs == [] then Some([])
    else
      var n := |vs| - 1;
      match EncodeItems(f, vs[..n], tagged)
      case None => None
      case Some(s) =>
        (match if tagged then EncodeItem(f, vs[n]) else EncodeValue(f, vs[n])
         case None => None
         case Some(t) => Some(s + t))
  }

  /** encode_array */
  function EncodeArray(f: Field, vs: seq<Value>): Option<seq<byte>>
    requires forall v <- vs :: TypedValue(f, v)
    decreases f, 3
  {
    if vs == [] then Some([])
    else if |vs| > f.arraySize then None
    else if f.ltype.Packable() then
      match EncodeItems(f, vs, false)
      case None => None
      case Some(s) => Some(Tag(WT_STRING, f.tag) + Delimited(s))
    else EncodeItems(f, vs, true)
  }

  /** encode_basic_field, for statically allocated fields */
  function EncodeField(f: Field, fv: FieldVal): Option<seq<byte>>
    requires TypedField(f, fv)
    decreases f, 4
  {
    match f.htype
    case REQUIRED => EncodeItem(f, fv.v)
    case OPTIONAL =>
      if f.HasFlag() then if fv.o.Some? then EncodeItem(f, fv.o.value) else Some([])
      else if IsDefault(f, fv.v) then Some([]) else EncodeItem(f, fv.v)
    case REPEATED => EncodeArray(f, fv.vs)
    case ONEOF(_) => if fv.o.Some? then EncodeItem(f, fv.o.value) else Some([])
  }

  /** pb_encode */
  function EncodeFields(fields: seq<Field>, vals: seq<FieldVal>): Option<seq<byte>>
    requires Typed(fields, vals)
    decreases fields
  {
    if fields == [] then Some([])
    else
      match EncodeField(fields[0], vals[0])
      case None => None
      case Some(s) =>
        (match EncodeFields(fields[1..], vals[1..])
         case None => None
         case Some(t) => Some(s + t))
  }
}
