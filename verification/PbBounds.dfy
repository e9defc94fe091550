/**
  * Whatever the bytes, a struct that pb_decode fills in successfully is within the bounds of its type;
  * with the round trip this tells exactly which structs survive encoding, and that re-encoding is stable.
  */
module PbBounds {
  import opened Bits
  import opened Bytes
  import opened Varint
  import opened PbSchema
  import opened PbEncodeSpec
  import opened PbDecodeSpec
  import opened PbRoundTrip

  lemma {:induction false} FromLittleEndianBound(s: seq<byte>)
    ensures FromLittleEndian(s) < Pow2(8 * |s|)
  {
    if s != [] {
      FromLittleEndianBound(s[1..]);
      Pow2Step8(8 * (|s| - 1));
    }
  }

  lemma NarrowInRange(i: int, size: nat)
    requires IntWidth(size)
    ensures SignedFits(Narrow(i, size), size)
  {
  }

  lemma ScalarBounds(f: Field, bs: seq<byte>)
    requires FieldOk(f) && DecodeScalar(f, bs).Ok?
    ensures StorableValue(f, DecodeScalar(f, bs).value)
  {
    hide DecodeFrom, Decode32, FromLittleEndian, Zeros, CString, Narrow;
    match f.ltype {
      case VARINT =>
        DecodeBound(bs, 0, 0);
        var value := Decode(bs).value;
        NarrowInRange(if f.dataSize == 8 then AsSigned(value) else Narrow(value, 4), f.dataSize);
      case UVARINT =>
      case SVARINT =>
        DecodeBound(bs, 0, 0);
        NarrowInRange(UnZigZag(Decode(bs).value), f.dataSize);
      case FIXED32 =>
        WordSizes();
        FromLittleEndianBound(bs[..4]);
      case FIXED64 =>
        WordSizes();
        FromLittleEndianBound(bs[..8]);
      case BYTES =>
      case STRING =>
      case FIXED_LENGTH_BYTES =>
    }
  }

  lemma {:induction false} DefaultStorable(f: Field)
    requires FieldOk(f)
    ensures StorableValue(f, DefaultValue(f))
    decreases f
  {
    match f.ltype {
      case SUBMESSAGE(sub) => DefaultsStorable(sub);
      case _ =>
    }
  }

  /** The struct pb_message_set_to_defaults leaves is within its bounds. */
  lemma {:induction false} DefaultsStorable(fields: seq<Field>)
    requires WellFormed(fields)
    ensures Storable(fields, Defaults(fields))
    decreases fields
  {
    hide DefaultValue, Defaults;
    forall i | 0 <= i < |fields|
      ensures TypedField(fields[i], DefaultField(fields[i])) && StorableField(fields[i], DefaultField(fields[i]))
    {
      DefaultStorable(fields[i]);
    }
  }

  lemma {:induction false} ItemBounds(f: Field, bs: seq<byte>, cur: Value)
    requires FieldOk(f) && StorableValue(f, cur) && DecodeItem(f, bs, cur).Ok?
    ensures StorableValue(f, DecodeItem(f, bs, cur).value)
    decreases |bs|, 0
  {
    hide DecodeScalar, Defaults, TakeDelimited, DecodeNoinit;
    if f.ltype.SUBMESSAGE? {
      var sub := f.ltype.fields;
      DefaultsStorable(sub);
      NoinitBounds(sub, TakeDelimited(bs).value, if f.htype != REPEATED then cur.vals else Defaults(sub));
    } else {
      ScalarBounds(f, bs);
    }
  }

  lemma {:induction false} PackedBounds(f: Field, bs: seq<byte>, vs: seq<Value>)
    requires FieldOk(f) && |vs| <= f.arraySize && (forall v <- vs :: StorableValue(f, v)) && DecodePacked(f, bs, vs).Some?
    ensures |DecodePacked(f, bs, vs).value| <= f.arraySize
    ensures forall v <- DecodePacked(f, bs, vs).value :: StorableValue(f, v)
    decreases |bs|
  {
    hide DecodeScalar, StorableValue;
    if bs != [] {
      ScalarBounds(f, bs);
      DecodeScalarShrinks(f, bs);
      PackedBounds(f, DecodeScalar(f, bs).rest, vs + [DecodeScalar(f, bs).value]);
    }
  }

  lemma {:induction false} FieldBounds(f: Field, wireType: nat, bs: seq<byte>, fv: FieldVal)
    requires FieldOk(f) && TypedField(f, fv) && StorableField(f, fv) && DecodeField(f, wireType, bs, fv).Ok?
    ensures var fv' := DecodeField(f, wireType, bs, fv).value; TypedField(f, fv') && StorableField(f, fv')
    ensures DecodeField(f, wireType, bs, fv).value != Opt(None)
    decreases |bs|, 1
  {
    hide DecodeItem, TakeDelimited, DecodePacked, DefaultValue, StorableValue, TypedValue;
    DefaultStorable(f);
    if f.htype == REPEATED {
      if wireType == WT_STRING && f.ltype.Packable() {
        PackedBounds(f, TakeDelimited(bs).value, fv.vs);
      } else {
        ItemBounds(f, bs, DefaultValue(f));
      }
    } else {
      ItemBounds(f, bs, if f.htype.ONEOF? then DefaultValue(f) else Current(f, fv));
    }
  }

  /** Storing an item that is within bounds keeps the struct so: the other members of a union lose theirs. */
  lemma StoreStorable(fields: seq<Field>, vals: seq<FieldVal>, i: nat, fv: FieldVal)
    requires Storable(fields, vals) && i < |fields| && TypedField(fields[i], fv) && StorableField(fields[i], fv)
    ensures Storable(fields, Store(fields, vals, i, fv))
  {
    hide TypedValue, StorableValue;
    var r := Store(fields, vals, i, fv);
    forall j | 0 <= j < |fields| ensures TypedField(fields[j], r[j]) && StorableField(fields[j], r[j]) {
    }
    forall j, k | 0 <= j < k < |fields| && SameUnion(fields[j], fields[k]) ensures r[j] == Opt(None) || r[k] == Opt(None) {
    }
  }

  lemma {:induction false} TurnBounds(fields: seq<Field>, bs: seq<byte>, p: Progress)
    requires WellFormed(fields) && Storable(fields, p.vals) && TakeField(fields, bs, p).Took?
    ensures Storable(fields, TakeField(fields, bs, p).p.vals)
    decreases |bs|, 2
  {
    hide DecodeField, Decode32, Find, Skip, Store, Storable, TypedValue, StorableValue, RequiredBefore;
    Decode32Shrinks(bs);
    var key, rest := Decode32(bs).value, Decode32(bs).rest;
    var tag, wireType := key / 8, key % 8;
    match Find(fields, tag) {
      case None =>
      case Some(i) =>
        StorableAt(fields, p.vals, i);
        FieldBounds(fields[i], wireType, rest, p.vals[i]);
        StoreStorable(fields, p.vals, i, DecodeField(fields[i], wireType, rest, p.vals[i]).value);
    }
  }

  lemma StorableAt(fields: seq<Field>, vals: seq<FieldVal>, i: nat)
    requires WellFormed(fields) && Storable(fields, vals) && i < |fields|
    ensures FieldOk(fields[i]) && TypedField(fields[i], vals[i]) && StorableField(fields[i], vals[i])
  {
  }

  lemma {:induction false} FieldsBounds(fields: seq<Field>, bs: seq<byte>, p: Progress)
    requires WellFormed(fields) && Storable(fields, p.vals) && TakeFields(fields, bs, p).Some?
    ensures Storable(fields, TakeFields(fields, bs, p).value.vals)
    decreases |bs|, 3
  {
    hide TakeField, Storable, WellFormed;
    if bs != [] {
      match TakeField(fields, bs, p) {
        case Took(p', rest) =>
          TurnBounds(fields, bs, p);
          FieldsBounds(fields, rest, p');
        case Ended =>
      }
    }
  }

  /** Decoding into a struct that is within its bounds leaves it so. */
  lemma {:induction false} NoinitBounds(fields: seq<Field>, bs: seq<byte>, vals: seq<FieldVal>)
    requires WellFormed(fields) && Storable(fields, vals) && DecodeNoinit(fields, bs, vals).Some?
    ensures Storable(fields, DecodeNoinit(fields, bs, vals).value)
    decreases |bs|, 4
  {
    hide TakeFields, Storable, WellFormed;
    FieldsBounds(fields, bs, Progress(vals, {}));
  }

  /** No array, string, integer or union is ever over-filled, whatever the bytes. */
  lemma DecodedWithinBounds(fields: seq<Field>, bs: seq<byte>)
    requires WellFormed(fields) && DecodeMessage(fields, bs).Some?
    ensures Storable(fields, DecodeMessage(fields, bs).value)
  {
    hide DecodeNoinit, Storable, WellFormed;
    DefaultsStorable(fields);
    NoinitBounds(fields, bs, Defaults(fields));
  }

  /**
    * Exactly which structs survive: pb_encode succeeds and pb_decode gives the struct back if and only if
    * every array, string and byte array in it is within its declared bounds, a string with room for its
    * terminator, and at most one member of a union is set.
    */
  lemma RoundTripExact(fields: seq<Field>, vals: seq<FieldVal>)
    requires WellFormed(fields) && Typed(fields, vals)
    requires var e := EncodeFields(fields, vals); e.Some? ==> |e.value| < TWO32
    ensures var e := EncodeFields(fields, vals);
            (e.Some? && DecodeMessage(fields, e.value) == Some(vals)) <==> Storable(fields, vals)
  {
    hide EncodeFields, DecodeMessage, Storable, WellFormed, Typed;
    var e := EncodeFields(fields, vals);
    if Storable(fields, vals) {
      RoundTrip(fields, vals, []);
    } else if e.Some? && DecodeMessage(fields, e.value) == Some(vals) {
      DecodedWithinBounds(fields, e.value);
    }
  }

  /**
    * Whatever a message looked like when it was accepted (repeated, unordered, packed or unknown fields),
    * encoding the struct it filled in succeeds, and decoding that gives the same struct.
    */
  lemma ReencodedSame(fields: seq<Field>, bs: seq<byte>)
    requires WellFormed(fields) && DecodeMessage(fields, bs).Some?
    ensures Typed(fields, DecodeMessage(fields, bs).value)
    ensures var e := EncodeFields(fields, DecodeMessage(fields, bs).value);
            e.Some? && (|e.value| < TWO32 ==> DecodeMessage(fields, e.value) == DecodeMessage(fields, bs))
  {
    hide EncodeFields, DecodeMessage, WellFormed, Typed;
    DecodedWithinBounds(fields, bs);
    RoundTrip(fields, DecodeMessage(fields, bs).value, []);
  }
}
