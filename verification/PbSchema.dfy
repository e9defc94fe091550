/** nanopb field descriptions and the values they describe (pb.h). */
module PbSchema {
  import opened Bytes
  import opened Varint

  /** The field data types; a submessage comes with its own field list. */
  datatype LType =
    | VARINT | UVARINT | SVARINT | FIXED32 | FIXED64
    | BYTES | STRING | SUBMESSAGE(fields: seq<Field>) | EXTENSION | FIXED_LENGTH_BYTES
  {
    /** At most PB_LTYPE_LAST_PACKABLE */
    predicate Packable() {
      VARINT? || UVARINT? || SVARINT? || FIXED32? || FIXED64?
    }
  }

  /** The repetition rules; members of a oneof name the union they share. */
  datatype HType = REQUIRED | OPTIONAL | REPEATED | ONEOF(union: nat)

  /** Where the data of a field is: in the struct, behind a pointer in it, or with a callback */
  datatype AType = STATIC | ALLOCATED | CALLBACK

  /** pb_field_t. A list of them stands without the zero-tag entry that ends it in memory. */
  datatype Field = Field(
    tag: nat, atype: AType, htype: HType, ltype: LType,
    dataOffset: nat, sizeOffset: int, dataSize: nat, arraySize: nat)
  {
    /** Whether the field has a has_ flag, a count or a which_ member of its own. */
    predicate HasFlag() {
      sizeOffset != 0
    }
  }

  /**
    * What a struct holds for a single item: a number, a byte array, or a nested struct; for a string,
    * the characters before its terminator.
    */
  datatype Value = Int(i: int) | Raw(bytes: seq<byte>) | Msg(vals: seq<FieldVal>)

  /**
    * What a struct holds for a field: `One` for required and proto3 singular fields, `Opt` for fields
    * with a has_ flag and for members of a oneof, `Many` for arrays. An absent item has no content.
    */
  datatype FieldVal = One(v: Value) | Opt(o: Option<Value>) | Many(vs: seq<Value>)

  /** pb_size_t is 32 bits wide in this build; so is the size in front of a pb_bytes_array_t. */
  const SIZE_MAX: nat := 0xffff_ffff
  const BYTES_OFFSET: nat := 4

  /** The largest field number of the wire format plus one */
  const TAG_LIMIT: nat := 0x2000_0000

  const WT_VARINT: nat := 0
  const WT_64BIT: nat := 1
  const WT_STRING: nat := 2
  const WT_32BIT: nat := 5

  predicate IntWidth(size: nat) {
    size == 1 || size == 2 || size == 4 || size == 8
  }

  /** Half the number of values of a `size`-byte integer */
  function HalfRange(size: nat): nat {
    if size == 1 then 0x80 else if size == 2 then 0x8000 else if size == 4 then TWO31 else TWO63
  }

  predicate SignedFits(i: int, size: nat) {
    0 <= i + HalfRange(size) < 2 * HalfRange(size)
  }

  predicate UnsignedFits(i: int, size: nat) {
    0 <= i < 2 * HalfRange(size)
  }

  // Field lists that describe a struct

  predicate WellFormed(fields: seq<Field>) {
    && (forall f <- fields :: FieldOk(f))
    && forall i, j | 0 <= i < j < |fields| :: fields[i].tag != fields[j].tag
  }

  predicate FieldOk(f: Field) {
    && 1 <= f.tag < TAG_LIMIT
    && f.atype == STATIC
    && f.dataSize <= SIZE_MAX && f.arraySize <= SIZE_MAX
    && (f.htype == REPEATED ==> f.HasFlag())
    && (f.htype == REQUIRED ==> !f.HasFlag())
    && (f.htype.ONEOF? ==> f.HasFlag())
    && (match f.ltype
        case VARINT => IntWidth(f.dataSize)
        case UVARINT => IntWidth(f.dataSize)
        case SVARINT => IntWidth(f.dataSize)
        case FIXED32 => f.dataSize == 4
        case FIXED64 => f.dataSize == 8
        case BYTES => f.dataSize >= BYTES_OFFSET
        case STRING => f.dataSize >= 1
        case SUBMESSAGE(sub) => WellFormed(sub)
        case EXTENSION => false
        case _ => true)
  }

  // Values that a struct of the described type can hold

  predicate TypedValue(f: Field, v: Value)
    decreases f, 0
  {
    match f.ltype
    case VARINT => v.Int? && IntWidth(f.dataSize) && SignedFits(v.i, f.dataSize)
    case UVARINT => v.Int? && IntWidth(f.dataSize) && UnsignedFits(v.i, f.dataSize)
    case SVARINT => v.Int? && IntWidth(f.dataSize) && SignedFits(v.i, f.dataSize)
    case FIXED32 => v.Int? && 0 <= v.i < TWO32
    case FIXED64 => v.Int? && 0 <= v.i < TWO64
    case BYTES => v.Raw? && |v.bytes| <= SIZE_MAX
    case STRING => v.Raw? && |v.bytes| <= f.dataSize && 0 !in v.bytes
    case FIXED_LENGTH_BYTES => v.Raw? && |v.bytes| == f.dataSize
    case SUBMESSAGE(sub) => v.Msg? && Typed(sub, v.vals)
    case EXTENSION => false
  }

  predicate TypedField(f: Field, fv: FieldVal)
    decreases f, 1
  {
    match f.htype
    case REQUIRED => fv.One? && TypedValue(f, fv.v)
    case OPTIONAL =>
      if f.HasFlag() then fv.Opt? && (fv.o.Some? ==> TypedValue(f, fv.o.value)) else fv.One? && TypedValue(f, fv.v)
    case REPEATED => fv.Many? && forall v <- fv.vs :: TypedValue(f, v)
    case ONEOF(_) => fv.Opt? && (fv.o.Some? ==> TypedValue(f, fv.o.value))
  }

  /** `vals` is a struct of the type that `fields` describes. */
  predicate Typed(fields: seq<Field>, vals: seq<FieldVal>)
    decreases fields
  {
    |vals| == |fields| && forall i | 0 <= i < |fields| :: TypedField(fields[i], vals[i])
  }

  // Values within the bounds of the described type: those that decoding can give back

  predicate StorableValue(f: Field, v: Value): (b: bool)
    ensures b ==> TypedValue(f, v)
    decreases f, 0
  {
    && TypedValue(f, v)
    && match f.ltype
       case BYTES => |v.bytes| + BYTES_OFFSET <= f.dataSize
       case STRING => |v.bytes| < f.dataSize
       case SUBMESSAGE(sub) => Storable(sub, v.vals)
       case _ => true
  }

  predicate StorableField(f: Field, fv: FieldVal)
    requires TypedField(f, fv)
    decreases f, 1
  {
    match fv
    case One(v) => StorableValue(f, v)
    case Opt(o) => o.Some? ==> StorableValue(f, o.value)
    case Many(vs) => |vs| <= f.arraySize && forall v <- vs :: StorableValue(f, v)
  }

  predicate Storable(fields: seq<Field>, vals: seq<FieldVal>): (b: bool)
    ensures b ==> Typed(fields, vals)
    decreases fields
  {
    && Typed(fields, vals)
    && (forall i | 0 <= i < |fields| :: StorableField(fields[i], vals[i]))
    && forall i, j | 0 <= i < j < |fields| && SameUnion(fields[i], fields[j]) :: vals[i] == Opt(None) || vals[j] == Opt(None)
  }

  predicate SameUnion(f: Field, g: Field) {
    f.htype.ONEOF? && g.htype == f.htype
  }

  // The struct that pb_message_set_to_defaults leaves

  function DefaultValue(f: Field): Value
    decreases f, 0
  {
    match f.ltype
    case VARINT => Int(0)
    case UVARINT => Int(0)
    case SVARINT => Int(0)
    case FIXED32 => Int(0)
    case FIXED64 => Int(0)
    case BYTES => Raw([])
    case STRING => Raw([])
    case FIXED_LENGTH_BYTES => Raw(Zeros(f.dataSize))
    case SUBMESSAGE(sub) => Msg(Defaults(sub))
    case EXTENSION => Int(0)
  }

  function DefaultField(f: Field): FieldVal
    decreases f, 1
  {
    match f.htype
    case REQUIRED => One(DefaultValue(f))
    case OPTIONAL => if f.HasFlag() then Opt(None) else One(DefaultValue(f))
    case REPEATED => Many([])
    case ONEOF(_) => Opt(None)
  }

  function Defaults(fields: seq<Field>): (vals: seq<FieldVal>)
    ensures |vals| == |fields|
    ensures forall i | 0 <= i < |fields| :: vals[i] == DefaultField(fields[i])
    decreases fields
  {
    if fields == [] then [] else [DefaultField(fields[0])] + Defaults(fields[1..])
  }

  function Zeros(n: nat): (s: seq<byte>)
    ensures |s| == n && forall i | 0 <= i < n :: s[i] == 0
  {
    if n == 0 then [] else [0] + Zeros(n - 1)
  }
}
