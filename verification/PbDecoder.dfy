/**
  * pb_decode and the field decoders at work on an input stream (pb_decode.c). What they store in the
  * destination struct is passed in and out as a value; each method is proved against PbDecodeSpec.
  */
module PbDecoder {
  import opened Bytes
  import opened Varint
  import opened PbSchema
  import Spec = PbDecodeSpec
  import opened PbIterator
  import opened PbInput
  import opened PbRequired
  import PbRoundTrip

  /** The sizes in a field description are of type pb_size_t. */
  predicate FieldSized(f: Field) {
    f.dataSize <= SIZE_MAX && f.arraySize <= SIZE_MAX
  }

  /** A field of a well-formed list, or the entry that ends an empty one */
  predicate Described(f: Field) {
    FieldOk(f) || f == LAST_FIELD
  }

  // Integers

  /** The chain of casts in the pb_dec_ functions for integers: the value as a signed type of the field's size */
  method Clamp(f: Field, svalue: int) returns (ok: bool, clamped: int)
    requires SignedFits(svalue, 8)
    ensures ok == IntWidth(f.dataSize)
    ensures ok ==> clamped == Spec.Narrow(svalue, f.dataSize)
  {
    if f.dataSize == 8 {
      clamped := svalue;
    } else if f.dataSize == 4 {
      clamped := Spec.Narrow(svalue, 4);
    } else if f.dataSize == 2 {
      clamped := Spec.Narrow(svalue, 2);
    } else if f.dataSize == 1 {
      clamped := Spec.Narrow(svalue, 1);
    } else {
      return false, 0;
    }
    ok := true;
  }

  /** pb_dec_varint */
  method DecVarint(s: IStream, f: Field) returns (ok: bool, v: Value)
    requires s.Valid() && f.ltype.VARINT?
    modifies s
    ensures s.Valid() && s.End() == old(s.End())
    ensures match Spec.DecodeScalar(f, old(s.Rest()))
            case Ok(w, rest) => ok && v == w && s.Rest() == rest
            case _ => !ok
  {
    hide DecodeFrom, Spec.Narrow;
    Spec.DecodeBound(s.Rest(), 0, 0);
    var value, svalue, clamped;
    v := Int(0);
    ok, value := s.DecodeVarint();
    if !ok {
      return;
    }
    if f.dataSize == 8 {
      svalue := AsSigned(value);
    } else {
      svalue := Spec.Narrow(value, 4);
      Narrow4Fits(value);
    }
    ok, clamped := Clamp(f, svalue);
    if !ok {
      return;
    }
    if clamped != svalue {
      return false, v;
    }
    v := Int(clamped);
  }

  lemma Narrow4Fits(i: int)
    ensures SignedFits(Spec.Narrow(i, 4), 8)
  {
  }

  /** pb_dec_uvarint */
  method DecUvarint(s: IStream, f: Field) returns (ok: bool, v: Value)
    requires s.Valid() && f.ltype.UVARINT?
    modifies s
    ensures s.Valid() && s.End() == old(s.End())
    ensures match Spec.DecodeScalar(f, old(s.Rest()))
            case Ok(w, rest) => ok && v == w && s.Rest() == rest
            case _ => !ok
  {
    hide DecodeFrom;
    var value, clamped;
    v := Int(0);
    ok, value := s.DecodeVarint();
    if !ok {
      return;
    }
    if f.dataSize == 8 {
      clamped := value;
    } else if f.dataSize == 4 {
      clamped := value % TWO32;
    } else if f.dataSize == 2 {
      clamped := value % 0x1_0000;
    } else if f.dataSize == 1 {
      clamped := value % 0x100;
    } else {
      return false, v;
    }
    if clamped != value {
      return false, v;
    }
    v := Int(clamped);
  }

  /** pb_dec_svarint */
  method DecSvarint(s: IStream, f: Field) returns (ok: bool, v: Value)
    requires s.Valid() && f.ltype.SVARINT?
    modifies s
    ensures s.Valid() && s.End() == old(s.End())
    ensures match Spec.DecodeScalar(f, old(s.Rest()))
            case Ok(w, rest) => ok && v == w && s.Rest() == rest
            case _ => !ok
  {
    hide DecodeFrom, Spec.Narrow, UnZigZag;
    Spec.DecodeBound(s.Rest(), 0, 0);
    var value, clamped;
    v := Int(0);
    ok, value := s.DecodeSvarint();
    if !ok {
      return;
    }
    ok, clamped := Clamp(f, value);
    if !ok {
      return;
    }
    if clamped != value {
      return false, v;
    }
    v := Int(clamped);
  }

  // Byte strings

  /** pb_dec_bytes; the size with its header is computed in size_t. */
  method DecBytes(s: IStream, f: Field) returns (ok: bool, v: Value)
    requires s.Valid() && f.ltype.BYTES? && FieldSized(f)
    modifies s
    ensures s.Valid() && s.End() == old(s.End())
    ensures match Spec.DecodeScalar(f, old(s.Rest()))
            case Ok(w, rest) => ok && v == w && s.Rest() == rest
            case _ => !ok
  {
    hide Decode32;
    var size, eof, bytes;
    v := Raw([]);
    ok, size, eof := s.DecodeVarint32Eof();
    if !ok {
      return;
    }
    if size > SIZE_MAX {
      return false, v;
    }
    var allocSize := size + BYTES_OFFSET;
    if allocSize > f.dataSize {
      return false, v;
    }
    ok, bytes := s.Read(size);
    v := Raw(bytes);
  }

  /** pb_dec_string; the size with its terminator is computed in 32 bits. */
  method DecString(s: IStream, f: Field) returns (ok: bool, v: Value)
    requires s.Valid() && f.ltype.STRING? && FieldSized(f)
    modifies s
    ensures s.Valid() && s.End() == old(s.End())
    ensures match Spec.DecodeScalar(f, old(s.Rest()))
            case Ok(w, rest) => ok && v == w && s.Rest() == rest
            case _ => !ok
  {
    hide Decode32, Spec.CString;
    var size, eof, bytes;
    v := Raw([]);
    ok, size, eof := s.DecodeVarint32Eof();
    if !ok {
      return;
    }
    Spec.Decode32Bound(old(s.Rest()));
    var allocSize := (size + 1) % TWO32;
    if allocSize < size {
      return false, v;
    }
    if allocSize > f.dataSize {
      return false, v;
    }
    ok, bytes := s.Read(size);
    v := Raw(Spec.CString(bytes));
  }

  /** pb_dec_fixed_length_bytes */
  method DecFixedLengthBytes(s: IStream, f: Field) returns (ok: bool, v: Value)
    requires s.Valid() && f.ltype.FIXED_LENGTH_BYTES?
    modifies s
    ensures s.Valid() && s.End() == old(s.End())
    ensures match Spec.DecodeScalar(f, old(s.Rest()))
            case Ok(w, rest) => ok && v == w && s.Rest() == rest
            case _ => !ok
  {
    hide Decode32, Zeros;
    var size, eof, bytes;
    v := Raw([]);
    ok, size, eof := s.DecodeVarint32Eof();
    if !ok {
      return;
    }
    if size > SIZE_MAX {
      return false, v;
    }
    if size == 0 {
      return true, Raw(Zeros(f.dataSize));
    }
    if size != f.dataSize {
      return false, v;
    }
    ok, bytes := s.Read(f.dataSize);
    v := Raw(bytes);
  }

  // Defaults

  /** pb_message_set_to_defaults */
  method SetToDefaults(fields: seq<Field>) returns (vals: seq<FieldVal>)
    requires WellFormed(fields)
    ensures vals == Defaults(fields)
    decreases fields
  {
    hide Defaults, DefaultField, FieldOk;
    vals := [];
    PbFieldList(fields);
    var iter := new FieldIter(fields, 0);
    var more := fields != [];
    while more
      invariant iter.Valid() && iter.fields == fields && fresh(iter)
      invariant more ==> iter.pos < |fields|
      invariant |vals| == if more then iter.pos else |fields|
      invariant forall j | 0 <= j < |vals| :: vals[j] == DefaultField(fields[j])
      decreases |fields| - |vals|
    {
      var fv := SetFieldToDefault(fields[iter.pos]);
      vals := vals + [fv];
      more := iter.Next();
    }
  }

  lemma PbFieldList(fields: seq<Field>)
    requires WellFormed(fields)
    ensures IsFieldList(fields)
  {
  }

  /** pb_field_set_to_default, for statically allocated fields without a default in the schema */
  method SetFieldToDefault(f: Field) returns (fv: FieldVal)
    requires FieldOk(f)
    ensures fv == DefaultField(f)
    decreases f
  {
    hide Defaults;
    if f.htype == OPTIONAL && f.HasFlag() {
      return Opt(None);
    } else if f.htype == REPEATED {
      return Many([]);
    } else if f.htype.ONEOF? {
      return Opt(None);
    }
    match f.ltype {
      case SUBMESSAGE(sub) =>
        var vals := SetToDefaults(sub);
        fv := One(Msg(vals));
      case BYTES => fv := One(Raw([]));
      case STRING => fv := One(Raw([]));
      case FIXED_LENGTH_BYTES => fv := One(Raw(Zeros(f.dataSize)));
      case VARINT => fv := One(Int(0));
      case UVARINT => fv := One(Int(0));
      case SVARINT => fv := One(Int(0));
      case FIXED32 => fv := One(Int(0));
      case FIXED64 => fv := One(Int(0));
    }
  }

  // Fields

  /** The pb_dec_* function of the data type of f; `cur` is what the destination holds. */
  method DecodeItem(s: IStream, f: Field, cur: Value) returns (ok: bool, v: Value)
    requires s.Valid() && Described(f)
    modifies s
    ensures s.Valid() && s.End() <= old(s.End())
    ensures match Spec.DecodeItem(f, old(s.Rest()), cur)
            case Ok(w, rest) => ok && v == w && s.Rest() == rest && s.End() == old(s.End())
            case _ => !ok
    decreases s.bytesLeft, 0
  {
    hide Spec.TakeDelimited, Spec.DecodeNoinit, Defaults, Spec.Take;
    match f.ltype {
      case VARINT => ok, v := DecVarint(s, f);
      case UVARINT => ok, v := DecUvarint(s, f);
      case SVARINT => ok, v := DecSvarint(s, f);
      case FIXED32 =>
        var n;
        ok, n := s.DecodeFixed(4);
        v := Int(n);
      case FIXED64 =>
        var n;
        ok, n := s.DecodeFixed(8);
        v := Int(n);
      case BYTES => ok, v := DecBytes(s, f);
      case STRING => ok, v := DecString(s, f);
      case FIXED_LENGTH_BYTES => ok, v := DecFixedLengthBytes(s, f);
      case SUBMESSAGE(sub) => ok, v := DecSubmessage(s, f, cur);
    }
  }

  /** pb_dec_submessage */
  method DecSubmessage(s: IStream, f: Field, cur: Value) returns (ok: bool, v: Value)
    requires s.Valid() && FieldOk(f) && f.ltype.SUBMESSAGE?
    modifies s
    ensures s.Valid() && s.End() <= old(s.End())
    ensures match Spec.DecodeItem(f, old(s.Rest()), cur)
            case Ok(w, rest) => ok && v == w && s.Rest() == rest && s.End() == old(s.End())
            case _ => !ok
    decreases s.bytesLeft, 0, 0
  {
    hide Spec.TakeDelimited, Spec.DecodeNoinit, Defaults, WellFormed;
    v := cur;
    var substream, vals;
    ok, substream := s.MakeStringSubstream();
    if !ok {
      return;
    }
    if f.htype != REPEATED && cur.Msg? && |cur.vals| == |f.ltype.fields| {
      vals := cur.vals;
    } else {
      vals := SetToDefaults(f.ltype.fields);
    }
    var status, vals' := DecodeNoinit(substream, f.ltype.fields, vals);
    ok := s.CloseStringSubstream(substream);
    if !ok {
      return;
    }
    v := Msg(vals');
    ok := status;
  }

  /** The packed case of decode_static_field */
  method DecodePacked(s: IStream, f: Field, vs: seq<Value>) returns (ok: bool, r: seq<Value>)
    requires s.Valid() && FieldOk(f) && f.ltype.Packable()
    modifies s
    ensures s.Valid() && s.End() <= old(s.End())
    ensures match Spec.TakeDelimited(old(s.Rest()))
            case Ok(inner, rest) =>
              (match Spec.DecodePacked(f, inner, vs)
               case Some(r') => ok && r == r' && s.Rest() == rest && s.End() == old(s.End())
               case None => !ok)
            case _ => !ok
    decreases s.bytesLeft, 1
  {
    hide Spec.TakeDelimited, Spec.DecodeScalar, FieldOk, Spec.DecodeItem;
    r := vs;
    var substream;
    ok, substream := s.MakeStringSubstream();
    if !ok {
      return;
    }
    ghost var inner := substream.Rest();
    ghost var end := substream.End();
    var status := true;
    while status && substream.bytesLeft > 0 && |r| < f.arraySize
      invariant substream.Valid() && substream.End() <= end && (status ==> substream.End() == end)
      invariant Spec.DecodePacked(f, inner, vs) == if status then Spec.DecodePacked(f, substream.Rest(), r) else None
      modifies substream
      decreases status, substream.bytesLeft
    {
      ghost var left := substream.Rest();
      Spec.DecodeScalarShrinks(f, left);
      PlainItem(f, left, Int(0));
      var v;
      status, v := DecodeItem(substream, f, Int(0));
      if status {
        r := r + [v];
      }
    }
    if substream.bytesLeft != 0 {
      return false, r;
    }
    ok := s.CloseStringSubstream(substream);
    if !ok {
      return;
    }
    ok := status;
  }

  lemma PlainItem(f: Field, bs: seq<byte>, cur: Value)
    requires f.ltype.Packable()
    ensures Spec.DecodeItem(f, bs, cur) == Spec.DecodeScalar(f, bs)
  {
  }

  /** decode_static_field */
  method DecodeField(s: IStream, wireType: nat, f: Field, fv: FieldVal) returns (ok: bool, r: FieldVal)
    requires s.Valid() && Described(f)
    modifies s
    ensures s.Valid() && s.End() <= old(s.End())
    ensures match Spec.DecodeField(f, wireType, old(s.Rest()), fv)
            case Ok(w, rest) => ok && r == w && s.Rest() == rest && s.End() == old(s.End())
            case _ => !ok
    decreases s.bytesLeft, 2
  {
    hide Spec.TakeDelimited, Spec.DecodeItem, Spec.DecodePacked, DefaultValue, FieldOk;
    var v;
    r := fv;
    match f.htype {
      case REQUIRED =>
        ok, v := DecodeItem(s, f, Spec.Current(f, fv));
        r := One(v);
      case OPTIONAL =>
        ok, v := DecodeItem(s, f, Spec.Current(f, fv));
        r := if f.HasFlag() then Opt(Some(v)) else One(v);
      case REPEATED =>
        var vs := if fv.Many? then fv.vs else [];
        if wireType == WT_STRING && f.ltype.Packable() {
          ok, vs := DecodePacked(s, f, vs);
          r := Many(vs);
        } else {
          if |vs| >= f.arraySize {
            return false, fv;
          }
          ok, v := DecodeItem(s, f, DefaultValue(f));
          r := Many(vs + [v]);
        }
      case ONEOF(_) =>
        ok, v := DecodeItem(s, f, DefaultValue(f));
        r := Opt(Some(v));
    }
  }

  // Messages

  lemma FoundIs(fields: seq<Field>, i: nat)
    requires WellFormed(fields) && i < |fields|
    ensures Spec.Find(fields, fields[i].tag) == Some(i) && FieldOk(fields[i]) && !fields[i].ltype.EXTENSION?
    ensures fields[i].htype == REQUIRED ==> Spec.RequiredBefore(fields, i) < Spec.RequiredBefore(fields, |fields|)
  {
    PbRoundTrip.FindBack(fields, i);
    MoreRequired(fields, i, |fields|);
  }

  lemma NoExtensions(fields: seq<Field>)
    requires WellFormed(fields)
    ensures IsFieldList(fields) && forall f <- fields :: !f.ltype.EXTENSION?
  {
    forall f <- fields ensures !f.ltype.EXTENSION? {
      assert FieldOk(f);
    }
  }

  lemma NotFound(fields: seq<Field>, tag: nat)
    requires forall f <- fields :: !f.ltype.EXTENSION? && !Matches(f, tag)
    ensures Spec.Find(fields, tag).None?
  {
    hide Spec.Find;
    forall f <- fields ensures f.tag != tag {
      assert f.tag == tag ==> Matches(f, tag);
    }
  }

  /** The entry that ends an empty list passes for a field with tag 0, but nothing decodes as its type. */
  lemma EndEntryFails(wireType: nat, bs: seq<byte>, fv: FieldVal)
    ensures !Spec.DecodeField(LAST_FIELD, wireType, bs, fv).Ok?
  {
  }

  /** The last step of pb_decode_noinit: the number of required fields, and the check of the words */
  method CheckRequired(iter: FieldIter, fieldsSeen: seq<nat>, ghost seen: set<nat>) returns (ok: bool)
    requires iter.Valid() && Represents(fieldsSeen, seen)
    requires forall k <- seen :: k < Spec.RequiredBefore(iter.fields, |iter.fields|)
    modifies iter
    ensures ok <==> Spec.RequiredMet(iter.fields, seen)
  {
    var reqFieldCount := iter.requiredFieldIndex;
    var last := Entry(iter.fields, iter.pos);
    var more := iter.Next();
    while more
      invariant iter.Valid()
      invariant more ==> 0 < iter.pos < |iter.fields|
      invariant iter.fields != [] ==>
                  var i := if more then iter.pos - 1 else |iter.fields| - 1;
                  last == iter.fields[i] && reqFieldCount == Spec.RequiredBefore(iter.fields, i)
      invariant iter.fields == [] ==> reqFieldCount == 0
      invariant !more ==> iter.pos == 0
      decreases more, |iter.fields| - iter.pos
    {
      reqFieldCount := iter.requiredFieldIndex;
      last := Entry(iter.fields, iter.pos);
      more := iter.Next();
    }
    if last.htype == REQUIRED && Entry(iter.fields, iter.pos).tag != 0 {
      reqFieldCount := reqFieldCount + 1;
    }
    assert reqFieldCount == Spec.RequiredBefore(iter.fields, |iter.fields|);
    if reqFieldCount > Spec.MAX_REQUIRED {
      reqFieldCount := Spec.MAX_REQUIRED;
    }
    ok := true;
    if reqFieldCount > 0 {
      ok := AllMarked(fieldsSeen, reqFieldCount);
    }
  }

  /** One turn of the loop of pb_decode_noinit; `ended` when a zero tag breaks it off */
  method DecodeTurn(
    s: IStream, iter: FieldIter, vals: seq<FieldVal>, fieldsSeen: seq<nat>, extensionRangeStart: nat,
    ghost p: Spec.Progress)
    returns (ok: bool, ended: bool, r: seq<FieldVal>, fieldsSeen': seq<nat>, extensionRangeStart': nat,
      ghost q: Spec.Progress)
    requires s.Valid() && iter.Valid() && WellFormed(iter.fields) && |vals| == |iter.fields| && p.vals == vals
    requires Represents(fieldsSeen, p.seen) && forall k <- p.seen :: k < Spec.RequiredBefore(iter.fields, |iter.fields|)
    modifies s, iter
    ensures s.Valid() && s.End() <= old(s.End()) && iter.Valid()
    ensures match Spec.TakeField(iter.fields, old(s.Rest()), p)
            case Took(q', rest) => ok && !ended && q == q' && s.Rest() == rest && s.End() == old(s.End())
            case Ended => ok && ended && q == p && s.End() == old(s.End())
            case Bad => !ok
    ensures ok ==> q.vals == r && |r| == |iter.fields| && Represents(fieldsSeen', q.seen)
    ensures ok ==> forall k <- q.seen :: k < Spec.RequiredBefore(iter.fields, |iter.fields|)
    decreases s.bytesLeft, 2, 1
  {
    hide Decode32, Spec.Skip, Spec.DecodeField, Spec.Store, Spec.RequiredBefore, WellFormed, Mark, Represents, Spec.Find;
    r, fieldsSeen', extensionRangeStart', q := vals, fieldsSeen, extensionRangeStart, p;
    ended := false;
    var fields := iter.fields;
    NoExtensions(fields);
    ghost var all := s.Rest();
    Spec.Decode32Shrinks(all);
    var wireType, tag, eof, found;
    ok, wireType, tag, eof := s.DecodeTag();
    if !ok {
      return eof, eof, r, fieldsSeen', extensionRangeStart', q;
    }
    found := iter.Find(tag);
    if !found {
      NotFound(fields, tag);
      if tag >= extensionRangeStart {
        var isExtension := iter.FindExtension();
        if isExtension {
          assert false;
        }
        extensionRangeStart' := 0xffff_ffff;
      }
      Spec.SkipShrinks(s.Rest(), wireType);
      ok := s.SkipField(wireType);
      return;
    }
    var f := Entry(fields, iter.pos);
    if iter.pos < |fields| {
      FoundIs(fields, iter.pos);
    }
    if f.htype == REQUIRED && iter.requiredFieldIndex < Spec.MAX_REQUIRED {
      ghost var k := iter.requiredFieldIndex;
      MarkAdds(fieldsSeen, p.seen, iter.requiredFieldIndex);
      fieldsSeen' := Mark(fieldsSeen, iter.requiredFieldIndex);
      q := p.(seen := p.seen + {k});
    }
    if fields == [] {
      EndEntryFails(wireType, s.Rest(), Opt(None));
    }
    var fv;
    ok, fv := DecodeField(s, wireType, f, if iter.pos < |vals| then vals[iter.pos] else Opt(None));
    if !ok {
      return;
    }
    r := Spec.Store(fields, vals, iter.pos, fv);
    q := q.(vals := r);
  }

  /** pb_decode_noinit, into a struct that holds `vals` */
  method DecodeNoinit(s: IStream, fields: seq<Field>, vals: seq<FieldVal>) returns (ok: bool, r: seq<FieldVal>)
    requires s.Valid() && WellFormed(fields) && |vals| == |fields|
    modifies s
    ensures s.Valid() && s.End() <= old(s.End())
    ensures match Spec.DecodeNoinit(fields, old(s.Rest()), vals)
            case Some(r') => ok && r == r' && s.End() == old(s.End())
            case None => !ok
    decreases s.bytesLeft, 3
  {
    hide Spec.TakeField, Spec.RequiredBefore, Mark, Represents, WellFormed;
    NoExtensions(fields);
    var fieldsSeen := [0, 0];
    EmptySet();
    var extensionRangeStart := 0;
    r := vals;
    ghost var start := Spec.Progress(vals, {});
    ghost var p := start;
    ghost var all := s.Rest();
    var iter := new FieldIter(fields, 0);
    var ended := false;
    while !ended && s.bytesLeft != 0
      invariant s.Valid() && s.End() == old(s.End()) && (!ended ==> s.bytesLeft <= old(s.bytesLeft))
      invariant iter.Valid() && iter.fields == fields && fresh(iter)
      invariant |r| == |fields| && p.vals == r && Represents(fieldsSeen, p.seen)
      invariant forall k <- p.seen :: k < Spec.RequiredBefore(fields, |fields|)
      invariant Spec.TakeFields(fields, all, start) == if ended then Some(p) else Spec.TakeFields(fields, s.Rest(), p)
      decreases !ended, s.bytesLeft
    {
      ok, ended, r, fieldsSeen, extensionRangeStart, p := DecodeTurn(s, iter, r, fieldsSeen, extensionRangeStart, p);
      if !ok {
        return;
      }
    }
    ok := CheckRequired(iter, fieldsSeen, p.seen);
  }

  /** pb_decode */
  method DecodeMessage(s: IStream, fields: seq<Field>) returns (ok: bool, vals: seq<FieldVal>)
    requires s.Valid() && WellFormed(fields)
    modifies s
    ensures s.Valid() && s.End() <= old(s.End())
    ensures match Spec.DecodeMessage(fields, old(s.Rest()))
            case Some(r) => ok && vals == r && s.End() == old(s.End())
            case None => !ok
  {
    hide Spec.DecodeNoinit, WellFormed;
    vals := SetToDefaults(fields);
    ok, vals := DecodeNoinit(s, fields, vals);
  }

  /** pb_decode_delimited: a message with its length in front, as pb_encode_delimited writes it */
  method DecodeDelimited(s: IStream, fields: seq<Field>) returns (ok: bool, vals: seq<FieldVal>)
    requires s.Valid() && WellFormed(fields)
    modifies s
    ensures s.Valid()
    ensures match Spec.TakeDelimited(old(s.Rest()))
            case Ok(inner, rest) =>
              (match Spec.DecodeMessage(fields, inner)
               case Some(r) => ok && vals == r && s.Rest() == rest
               case None => !ok)
            case _ => !ok
  {
    hide Spec.DecodeMessage, WellFormed, Spec.TakeDelimited;
    vals := [];
    var substream;
    ok, substream := s.MakeStringSubstream();
    if !ok {
      return;
    }
    var status;
    status, vals := DecodeMessage(substream, fields);
    ok := s.CloseStringSubstream(substream);
    if !ok {
      return;
    }
    ok := status;
  }
}
