/** pb_encode and the field encoders (pb_encode.c), writing to a stream or counting with one. */
module PbEncoder {
  import opened Bytes
  import opened Varint
  import opened PbSchema
  import opened PbIterator
  import opened PbOutput
  import Spec = PbEncodeSpec
  import PbDecodeSpec
  import PbRoundTrip

  // size_t can hold the length of every submessage

  predicate SizedValue(f: Field, v: Value)
    requires TypedValue(f, v)
    decreases f, 0
  {
    f.ltype.SUBMESSAGE? ==>
      && Sized(f.ltype.fields, v.vals)
      && var e := Spec.EncodeFields(f.ltype.fields, v.vals); e.Some? ==> |e.value| < TWO64
  }

  predicate SizedField(f: Field, fv: FieldVal)
    requires TypedField(f, fv)
    decreases f, 1
  {
    match fv
    case One(v) => SizedValue(f, v)
    case Opt(o) => o.Some? ==> SizedValue(f, o.value)
    case Many(vs) => forall v <- vs :: SizedValue(f, v)
  }

  predicate Sized(fields: seq<Field>, vals: seq<FieldVal>)
    requires Typed(fields, vals)
    decreases fields
  {
    forall i | 0 <= i < |fields| :: SizedField(fields[i], vals[i])
  }

  // The encoding of a part, and of the rest

  lemma ConcatAssociates(a: Option<seq<byte>>, b: Option<seq<byte>>, c: Option<seq<byte>>)
    ensures Concat(Concat(a, b), c) == Concat(a, Concat(b, c))
  {
    if a.Some? && b.Some? && c.Some? {
      assert a.value + b.value + c.value == a.value + (b.value + c.value);
    }
  }

  lemma ConcatEmpty(a: Option<seq<byte>>)
    ensures Concat(a, Some([])) == a == Concat(Some([]), a)
  {
    if a.Some? {
      assert a.value + [] == a.value == [] + a.value;
    }
  }

  lemma {:induction false} ItemsSplit(f: Field, vs: seq<Value>, tagged: bool, k: nat)
    requires (forall v <- vs :: TypedValue(f, v)) && k <= |vs|
    ensures Spec.EncodeItems(f, vs, tagged)
            == Concat(Spec.EncodeItems(f, vs[..k], tagged), Spec.EncodeItems(f, vs[k..], tagged))
    decreases |vs|
  {
    hide Spec.EncodeValue, Spec.EncodeItem, TypedValue;
    if k == |vs| {
      assert vs[..k] == vs;
      ConcatEmpty(Spec.EncodeItems(f, vs, tagged));
    } else {
      var n := |vs| - 1;
      ItemsSplit(f, vs[..n], tagged, k);
      assert vs[..n][..k] == vs[..k] && vs[..n][k..] == vs[k..][..n - k] && vs[k..][n - k] == vs[n];
      var item := if tagged then Spec.EncodeItem(f, vs[n]) else Spec.EncodeValue(f, vs[n]);
      ConcatAssociates(Spec.EncodeItems(f, vs[..k], tagged), Spec.EncodeItems(f, vs[k..][..n - k], tagged), item);
    }
  }

  lemma {:induction false} FieldsSplit(fields: seq<Field>, vals: seq<FieldVal>, k: nat)
    requires Typed(fields, vals) && k <= |fields|
    ensures Typed(fields[..k], vals[..k]) && Typed(fields[k..], vals[k..])
    ensures Spec.EncodeFields(fields, vals)
            == Concat(Spec.EncodeFields(fields[..k], vals[..k]), Spec.EncodeFields(fields[k..], vals[k..]))
    decreases k
  {
    hide Spec.EncodeField, TypedField;
    var tail := Spec.EncodeFields(fields[k..], vals[k..]);
    if k > 0 {
      FieldsSplit(fields[1..], vals[1..], k - 1);
      assert fields[1..][..k - 1] == fields[..k][1..] && vals[1..][..k - 1] == vals[..k][1..];
      assert fields[1..][k - 1..] == fields[k..] && vals[1..][k - 1..] == vals[k..];
      assert fields[..k][0] == fields[0] && vals[..k][0] == vals[0];
      ConcatAssociates(Spec.EncodeField(fields[0], vals[0]), Spec.EncodeFields(fields[..k][1..], vals[..k][1..]), tail);
    } else {
      assert fields[0..] == fields && vals[0..] == vals;
      ConcatEmpty(tail);
    }
  }

  lemma OneField(f: Field, fv: FieldVal)
    requires TypedField(f, fv)
    ensures Typed([f], [fv]) && Spec.EncodeFields([f], [fv]) == Spec.EncodeField(f, fv)
  {
    hide Spec.EncodeField, TypedField;
    assert Spec.EncodeFields([f][1..], [fv][1..]) == Some([]);
    ConcatEmpty(Spec.EncodeField(f, fv));
  }

  /** One more field */
  lemma FieldsSnoc(fields: seq<Field>, vals: seq<FieldVal>, k: nat)
    requires Typed(fields, vals) && k < |fields|
    ensures Typed(fields[..k], vals[..k]) && Typed(fields[..k + 1], vals[..k + 1])
    ensures Spec.EncodeFields(fields[..k + 1], vals[..k + 1])
            == Concat(Spec.EncodeFields(fields[..k], vals[..k]), Spec.EncodeField(fields[k], vals[k]))
  {
    hide Spec.EncodeFields, TypedField;
    var fs, vs := fields[..k + 1], vals[..k + 1];
    FieldsSplit(fs, vs, k);
    assert fs[..k] == fields[..k] && vs[..k] == vals[..k] && fs[k..] == [fields[k]] && vs[k..] == [vals[k]];
    OneField(fields[k], vals[k]);
  }

  /** The size of a packed array */
  lemma {:induction false} PackedSize(f: Field, vs: seq<Value>)
    requires (forall v <- vs :: TypedValue(f, v)) && f.ltype.Packable()
    ensures var e := Spec.EncodeItems(f, vs, false);
            && e.Some? && |e.value| <= 10 * |vs|
            && (f.ltype.FIXED32? ==> |e.value| == 4 * |vs|) && (f.ltype.FIXED64? ==> |e.value| == 8 * |vs|)
    decreases |vs|
  {
    hide Encode, Spec.LittleEndian;
    if vs != [] {
      var n := |vs| - 1;
      PackedSize(f, vs[..n]);
      ScalarSize(f, vs[n]);
    }
  }

  lemma ScalarSize(f: Field, v: Value)
    requires TypedValue(f, v) && f.ltype.Packable()
    ensures var e := Spec.EncodeValue(f, v);
            && e.Some? && |e.value| <= 10
            && (f.ltype.FIXED32? ==> |e.value| == 4) && (f.ltype.FIXED64? ==> |e.value| == 8)
  {
    hide Encode, Spec.LittleEndian;
    if f.ltype.VARINT? {
      TenBytes(AsUnsigned(v.i));
    } else if f.ltype.UVARINT? {
      TenBytes(v.i);
    } else if f.ltype.SVARINT? {
      TenBytes(ZigZag(v.i));
    }
  }

  lemma WroteNone(a: Out)
    requires a.Valid()
    ensures Wrote(a, a, None, false)
  {
  }

  // pb_check_proto3_default_value

  method CheckProto3Default(f: Field, fv: FieldVal) returns (isDefault: bool)
    requires FieldOk(f) && TypedField(f, fv)
    ensures isDefault == Spec.IsDefaultField(f, fv)
    decreases f
  {
    if f.htype == REQUIRED {
      return false;
    } else if f.htype == REPEATED {
      return |fv.vs| == 0;
    } else if f.htype.ONEOF? {
      return fv.o.None?;
    } else if f.HasFlag() {
      return fv.o.None?;
    }
    match f.ltype {
      case BYTES => isDefault := |fv.v.bytes| == 0;
      case STRING => isDefault := |fv.v.bytes| == 0;
      case FIXED_LENGTH_BYTES => isDefault := f.dataSize == 0;
      case SUBMESSAGE(sub) =>
        isDefault := AllFieldsDefault(sub, fv.v.vals);
      case VARINT => isDefault := fv.v.i == 0;
      case UVARINT => isDefault := fv.v.i == 0;
      case SVARINT => isDefault := fv.v.i == 0;
      case FIXED32 => isDefault := fv.v.i == 0;
      case FIXED64 => isDefault := fv.v.i == 0;
    }
  }

  /** The loop over the fields of a submessage */
  method AllFieldsDefault(fields: seq<Field>, vals: seq<FieldVal>) returns (isDefault: bool)
    requires WellFormed(fields) && Typed(fields, vals)
    ensures isDefault == Spec.AllDefault(fields, vals)
    decreases fields
  {
    hide Spec.IsDefaultField, TypedField, FieldOk;
    FieldList(fields);
    var iter := new FieldIter(fields, 0);
    var more := fields != [];
    ghost var i := 0;
    while more
      invariant iter.Valid() && iter.fields == fields && fresh(iter)
      invariant i <= |fields| && if more then i == iter.pos && i < |fields| else i == |fields|
      invariant Typed(fields[i..], vals[i..])
      invariant Spec.AllDefault(fields, vals) == Spec.AllDefault(fields[i..], vals[i..])
      decreases |fields| - i
    {
      assert fields[i..][1..] == fields[i + 1..] && vals[i..][1..] == vals[i + 1..];
      assert fields[i..][0] == fields[i] && vals[i..][0] == vals[i];
      var d := CheckProto3Default(fields[iter.pos], vals[iter.pos]);
      if !d {
        return false;
      }
      more := iter.Next();
      i := i + 1;
    }
    isDefault := true;
  }

  // Encoding

  /** The pb_enc_* function of the data type of f */
  method EncodeValue(s: OStream, f: Field, v: Value) returns (ok: bool)
    requires s.Valid() && FieldOk(f) && TypedValue(f, v) && SizedValue(f, v)
    modifies s, s.buf
    ensures s.Valid() && Wrote(old(s.Now()), s.Now(), Spec.EncodeValue(f, v), ok)
    decreases f, 0
  {
    hide Wrote, Encode, Spec.LittleEndian, ZigZag, Spec.EncodeFields, Sized, Typed, WellFormed, Spec.Delimited;
    match f.ltype {
      case VARINT => ok := s.EncodeVarint(AsUnsigned(v.i));
      case UVARINT => ok := s.EncodeVarint(v.i);
      case SVARINT => ok := s.EncodeSvarint(v.i);
      case FIXED32 => ok := s.EncodeFixed32(v.i);
      case FIXED64 => ok := s.EncodeFixed64(v.i);
      case BYTES =>
        if |v.bytes| + BYTES_OFFSET > f.dataSize {
          WroteNone(s.Now());
          return false;
        }
        assert v.bytes[..|v.bytes|] == v.bytes;
        ok := s.EncodeString(v.bytes, |v.bytes|);
      case STRING =>
        // the terminator follows the characters, unless they fill the field
        var size := 0;
        while size < f.dataSize && size < |v.bytes|
          invariant size <= |v.bytes|
        {
          size := size + 1;
        }
        assert v.bytes[..|v.bytes|] == v.bytes;
        ok := s.EncodeString(v.bytes, size);
      case FIXED_LENGTH_BYTES =>
        assert v.bytes[..|v.bytes|] == v.bytes;
        ok := s.EncodeString(v.bytes, f.dataSize);
      case SUBMESSAGE(sub) =>
        ok := EncodeSubmessage(s, sub, v.vals);
    }
  }

  /** What pb_encode_submessage adds: the length of a struct, and the struct */
  function DelimitedFields(fields: seq<Field>, vals: seq<FieldVal>): Option<seq<byte>>
    requires Typed(fields, vals)
  {
    match Spec.EncodeFields(fields, vals)
    case None => None
    case Some(e) => Some(Spec.Delimited(e))
  }

  /**
    * pb_encode_submessage. The second pass always writes as many bytes as the first one counted, so the
    * error "submsg size changed" cannot occur.
    */
  method EncodeSubmessage(s: OStream, fields: seq<Field>, vals: seq<FieldVal>) returns (ok: bool)
    requires s.Valid() && WellFormed(fields) && Typed(fields, vals) && Sized(fields, vals)
    requires var e := Spec.EncodeFields(fields, vals); e.Some? ==> |e.value| < TWO64
    modifies s, s.buf
    ensures s.Valid() && Wrote(old(s.Now()), s.Now(), DelimitedFields(fields, vals), ok)
    decreases fields, 1
  {
    hide Encode, Spec.EncodeFields, Sized, Typed, WellFormed, Overwrite;
    ghost var e := Spec.EncodeFields(fields, vals);
    ghost var start := s.Now();
    var size := 0;
    ok, size := GetEncodedSize(fields, vals);
    if !ok {
      WroteNone(s.Now());
      return;
    }
    ok := s.EncodeVarint(size);
    ghost var mid := s.Now();
    if !ok {
      WroteNothingMore(start, mid, Some(Encode(size)), e);
      return;
    }
    if s.sizing {
      ok := s.Write(None, size);
      WroteBoth(start, mid, s.Now(), Some(Encode(size)), e, ok);
      return;
    }
    if s.bytesWritten + size > s.maxSize {
      WroteBoth(start, mid, mid, Some(Encode(size)), e, false);
      return false;
    }
    var substream := new OStream(false, s.buf, s.state, size);
    assert mid == s.Now();
    var status := EncodeMessage(substream, fields, vals);
    s.bytesWritten := s.bytesWritten + substream.bytesWritten;
    s.state := substream.state;
    if substream.bytesWritten != size {
      assert false;
    }
    WroteBoth(start, mid, s.Now(), Some(Encode(size)), e, status);
    ok := status;
  }

  /** pb_get_encoded_size */
  method GetEncodedSize(fields: seq<Field>, vals: seq<FieldVal>) returns (ok: bool, size: nat)
    requires WellFormed(fields) && Typed(fields, vals) && Sized(fields, vals)
    ensures ok == Spec.EncodeFields(fields, vals).Some?
    ensures ok ==> size == |Spec.EncodeFields(fields, vals).value|
    decreases fields, 0, 1
  {
    hide Spec.EncodeFields, Sized, Typed, WellFormed, Overwrite;
    var none := new byte[0];
    var stream := new OStream(true, none, 0, 0);
    ok := EncodeMessage(stream, fields, vals);
    size := stream.bytesWritten;
  }

  /** A tag and an item */
  method EncodeItem(s: OStream, f: Field, v: Value) returns (ok: bool)
    requires s.Valid() && FieldOk(f) && TypedValue(f, v) && SizedValue(f, v)
    modifies s, s.buf
    ensures s.Valid() && Wrote(old(s.Now()), s.Now(), Spec.EncodeItem(f, v), ok)
    decreases f, 1
  {
    hide Wrote, FieldOk, TypedValue, SizedValue, Spec.EncodeValue, Spec.Tag;
    ghost var start := s.Now();
    ghost var tag := Some(Spec.Tag(Spec.WireType(f.ltype), f.tag));
    ok := s.EncodeTagForField(f);
    ghost var mid := s.Now();
    if !ok {
      WroteNothingMore(start, mid, tag, Spec.EncodeValue(f, v));
      return;
    }
    ok := EncodeValue(s, f, v);
    WroteBoth(start, mid, s.Now(), tag, Spec.EncodeValue(f, v), ok);
  }

  /** The loops of encode_array */
  method EncodeItems(s: OStream, f: Field, vs: seq<Value>, tagged: bool) returns (ok: bool)
    requires s.Valid() && FieldOk(f) && forall v <- vs :: TypedValue(f, v) && SizedValue(f, v)
    modifies s, s.buf
    ensures s.Valid() && Wrote(old(s.Now()), s.Now(), Spec.EncodeItems(f, vs, tagged), ok)
    decreases f, 2
  {
    hide Wrote, FieldOk, TypedValue, SizedValue, Spec.EncodeValue, Spec.EncodeItem;
    ghost var start := s.Now();
    WroteEmpty(start);
    var i := 0;
    while i < |vs|
      invariant i <= |vs| && s.Valid()
      invariant Wrote(start, s.Now(), Spec.EncodeItems(f, vs[..i], tagged), true)
    {
      ghost var mid := s.Now();
      ghost var item := if tagged then Spec.EncodeItem(f, vs[i]) else Spec.EncodeValue(f, vs[i]);
      assert vs[..i + 1][..i] == vs[..i];
      if tagged {
        ok := EncodeItem(s, f, vs[i]);
      } else {
        ok := EncodeValue(s, f, vs[i]);
      }
      WroteBoth(start, mid, s.Now(), Spec.EncodeItems(f, vs[..i], tagged), item, ok);
      if !ok {
        ItemsSplit(f, vs, tagged, i + 1);
        WroteNothingMore(start, s.Now(), Spec.EncodeItems(f, vs[..i + 1], tagged), Spec.EncodeItems(f, vs[i + 1..], tagged));
        return;
      }
      i := i + 1;
    }
    assert vs[..|vs|] == vs;
    ok := true;
  }

  /** encode_array */
  method EncodeArray(s: OStream, f: Field, vs: seq<Value>) returns (ok: bool)
    requires s.Valid() && FieldOk(f) && forall v <- vs :: TypedValue(f, v) && SizedValue(f, v)
    modifies s, s.buf
    ensures s.Valid() && Wrote(old(s.Now()), s.Now(), Spec.EncodeArray(f, vs), ok)
    decreases f, 5
  {
    hide Wrote, TypedValue, SizedValue, Spec.EncodeItems;
    if |vs| == 0 {
      WroteEmpty(s.Now());
      return true;
    }
    if |vs| > f.arraySize {
      WroteNone(s.Now());
      return false;
    }
    if f.ltype.Packable() {
      ok := EncodePacked(s, f, vs);
    } else {
      ok := EncodeItems(s, f, vs, true);
    }
  }

  /** The packed case of encode_array */
  method EncodePacked(s: OStream, f: Field, vs: seq<Value>) returns (ok: bool)
    requires s.Valid() && FieldOk(f) && forall v <- vs :: TypedValue(f, v) && SizedValue(f, v)
    requires vs != [] && |vs| <= f.arraySize && f.ltype.Packable()
    modifies s, s.buf
    ensures s.Valid() && Wrote(old(s.Now()), s.Now(), Spec.EncodeArray(f, vs), ok)
    decreases f, 4
  {
    hide Wrote, TypedValue, SizedValue, Spec.EncodeItems, Spec.Tag, Encode;
    ghost var start := s.Now();
    ghost var items := Spec.EncodeItems(f, vs, false);
    PackedSize(f, vs);
    ghost var tag := Some(Spec.Tag(WT_STRING, f.tag));
    ghost var length := Some(Encode(|items.value|));
    ConcatAssociates(tag, length, items);
    ok := s.EncodeTag(WT_STRING, f.tag);
    ghost var mid := s.Now();
    if !ok {
      WroteNothingMore(start, mid, tag, length);
      WroteNothingMore(start, mid, Concat(tag, length), items);
      return;
    }
    var size;
    if f.ltype.FIXED32? {
      size := 4 * |vs|;
    } else if f.ltype.FIXED64? {
      size := 8 * |vs|;
    } else {
      ok, size := SizeOfItems(f, vs);
      if !ok {
        assert false;
      }
    }
    ok := s.EncodeVarint(size);
    ghost var mid' := s.Now();
    WroteBoth(start, mid, mid', tag, length, ok);
    if !ok {
      WroteNothingMore(start, mid', Concat(tag, length), items);
      return;
    }
    if s.sizing {
      ok := s.Write(None, size);
      WroteCounted(mid', s.Now(), items);
    } else {
      ok := EncodeItems(s, f, vs, false);
    }
    WroteBoth(start, mid', s.Now(), Concat(tag, length), items, ok);
  }

  /** Just sizing */
  lemma WroteCounted(a: Out, b: Out, e: Option<seq<byte>>)
    requires a.sizing && e.Some? && b == a.(bytesWritten := a.bytesWritten + |e.value|)
    ensures Wrote(a, b, e, true)
  {
  }

  /** The size of a packed array, found with a sizing stream */
  method SizeOfItems(f: Field, vs: seq<Value>) returns (ok: bool, size: nat)
    requires FieldOk(f) && forall v <- vs :: TypedValue(f, v) && SizedValue(f, v)
    ensures ok == Spec.EncodeItems(f, vs, false).Some?
    ensures ok ==> size == |Spec.EncodeItems(f, vs, false).value|
    decreases f, 3
  {
    hide FieldOk, TypedValue, SizedValue, Spec.EncodeItems, Overwrite;
    var none := new byte[0];
    var sizestream := new OStream(true, none, 0, 0);
    ok := EncodeItems(sizestream, f, vs, false);
    size := sizestream.bytesWritten;
  }

  /** encode_basic_field, for statically allocated fields */
  method EncodeBasicField(s: OStream, f: Field, fv: FieldVal) returns (ok: bool)
    requires s.Valid() && FieldOk(f) && TypedField(f, fv) && SizedField(f, fv)
    modifies s, s.buf
    ensures s.Valid() && Wrote(old(s.Now()), s.Now(), Spec.EncodeField(f, fv), ok)
    decreases f, 6
  {
    hide Wrote, TypedValue, SizedValue, Spec.EncodeItem, Spec.EncodeArray, Spec.IsDefault;
    var implicitHas := true;
    if !f.HasFlag() && f.htype == OPTIONAL {
      var d := CheckProto3Default(f, fv);
      implicitHas := !d;
    }
    WroteEmpty(s.Now());
    match f.htype {
      case REQUIRED =>
        ok := EncodeItem(s, f, fv.v);
      case OPTIONAL =>
        if f.HasFlag() && fv.o.Some? {
          ok := EncodeItem(s, f, fv.o.value);
        } else if !f.HasFlag() && implicitHas {
          ok := EncodeItem(s, f, fv.v);
        } else {
          ok := true;
        }
      case REPEATED =>
        ok := EncodeArray(s, f, fv.vs);
      case ONEOF(_) =>
        if fv.o.Some? {
          ok := EncodeItem(s, f, fv.o.value);
        } else {
          ok := true;
        }
    }
  }

  /**
    * pb_encode. On a buffer it succeeds if and only if counting would and there is room for the number of
    * bytes counted, and writes exactly that many.
    */
  method EncodeMessage(s: OStream, fields: seq<Field>, vals: seq<FieldVal>) returns (ok: bool)
    requires s.Valid() && WellFormed(fields) && Typed(fields, vals) && Sized(fields, vals)
    modifies s, s.buf
    ensures s.Valid() && Wrote(old(s.Now()), s.Now(), Spec.EncodeFields(fields, vals), ok)
    decreases fields, 0, 0
  {
    hide Wrote, TypedField, SizedField, Spec.EncodeField, FieldOk;
    ghost var start := s.Now();
    WroteEmpty(start);
    FieldList(fields);
    var iter := new FieldIter(fields, 0);
    var more := fields != [];
    ghost var i := 0;
    while more
      invariant s.Valid() && iter.Valid() && iter.fields == fields && fresh(iter)
      invariant i <= |fields| && if more then i == iter.pos && i < |fields| else i == |fields|
      invariant Typed(fields[..i], vals[..i])
      invariant Wrote(start, s.Now(), Spec.EncodeFields(fields[..i], vals[..i]), true)
      decreases |fields| - i
    {
      ghost var mid := s.Now();
      FieldsSnoc(fields, vals, i);
      ok := EncodeBasicField(s, fields[iter.pos], vals[iter.pos]);
      WroteBoth(start, mid, s.Now(), Spec.EncodeFields(fields[..i], vals[..i]), Spec.EncodeField(fields[i], vals[i]), ok);
      if !ok {
        FieldsSplit(fields, vals, i + 1);
        WroteNothingMore(start, s.Now(), Spec.EncodeFields(fields[..i + 1], vals[..i + 1]),
                         Spec.EncodeFields(fields[i + 1..], vals[i + 1..]));
        return;
      }
      more := iter.Next();
      i := i + 1;
    }
    assert fields[..|fields|] == fields && vals[..|fields|] == vals;
    ok := true;
  }

  /** pb_encode_nullterminated */
  method EncodeNullTerminated(s: OStream, fields: seq<Field>, vals: seq<FieldVal>) returns (ok: bool)
    requires s.Valid() && WellFormed(fields) && Typed(fields, vals) && Sized(fields, vals)
    modifies s, s.buf
    ensures s.Valid() && Wrote(old(s.Now()), s.Now(), Concat(Spec.EncodeFields(fields, vals), Some([0])), ok)
  {
    hide Wrote, Spec.EncodeFields, Sized, Typed, WellFormed;
    ghost var start := s.Now();
    ok := EncodeMessage(s, fields, vals);
    ghost var mid := s.Now();
    if !ok {
      WroteNothingMore(start, mid, Spec.EncodeFields(fields, vals), Some([0]));
      return;
    }
    ok := s.Write(Some([0]), 1);
    WroteBoth(start, mid, s.Now(), Spec.EncodeFields(fields, vals), Some([0]), ok);
  }

  /** What a successful pb_encode leaves in its buffer, pb_decode reads back. */
  lemma BufferRoundTrip(a: Out, b: Out, fields: seq<Field>, vals: seq<FieldVal>)
    requires WellFormed(fields) && Storable(fields, vals) && !a.sizing
    requires Wrote(a, b, Spec.EncodeFields(fields, vals), true)
    requires b.state < a.state + TWO32
    ensures a.state <= b.state <= |b.buf|
    ensures PbDecodeSpec.DecodeMessage(fields, b.buf[a.state..b.state]) == Some(vals)
  {
    hide PbDecodeSpec.DecodeMessage, Spec.EncodeFields, Storable, WellFormed;
    PbRoundTrip.RoundTrip(fields, vals, []);
    assert b.buf[a.state..b.state] == Spec.EncodeFields(fields, vals).value;
  }

  lemma FieldList(fields: seq<Field>)
    requires WellFormed(fields)
    ensures IsFieldList(fields)
  {
  }
}
