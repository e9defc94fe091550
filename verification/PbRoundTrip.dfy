/** Decoding what pb_encode wrote gives the struct back. */
module PbRoundTrip {
  import opened Bits
  import opened Bytes
  import opened Varint
  import opened PbSchema
  import opened PbEncodeSpec
  import opened PbDecodeSpec

  lemma {:induction false} LittleEndianRoundTrip(n: nat, width: nat)
    requires n < Pow2(8 * width)
    ensures FromLittleEndian(LittleEndian(n, width)) == n
  {
    if width > 0 {
      Pow2Step8(8 * (width - 1));
      LittleEndianRoundTrip(n / 256, width - 1);
      assert LittleEndian(n, width)[1..] == LittleEndian(n / 256, width - 1);
    }
  }

  lemma TakeAll(s: seq<byte>, rest: seq<byte>)
    ensures Take(s + rest, |s|) == Ok(s, rest)
  {
  }

  lemma TakeDelimitedBack(s: seq<byte>, rest: seq<byte>)
    requires |s| < TWO32
    ensures TakeDelimited(Delimited(s) + rest) == Ok(s, rest)
    ensures Decode32(Delimited(s) + rest) == Ok(|s|, s + rest)
  {
    hide Decode32, Encode;
    Decode32Small(|s|, s + rest);
    assert Delimited(s) + rest == Encode(|s|) + (s + rest);
    TakeAll(s, rest);
  }

  lemma NarrowFits(i: int, q: int, size: nat)
    requires IntWidth(size) && SignedFits(i, size)
    ensures Narrow(i + q * (2 * HalfRange(size)), size) == i
  {
    ModUnique(i + q * (2 * HalfRange(size)) + HalfRange(size), 2 * HalfRange(size), q, i + HalfRange(size));
  }

  lemma VarintItemBack(i: int, size: nat)
    requires IntWidth(size) && SignedFits(i, size)
    ensures VarintItem(AsUnsigned(i), size) == Some(i)
  {
    hide Narrow;
    NarrowFits(i, 0, size);
    if size != 8 {
      assert SignedFits(i, 4);
      NarrowFits(i, if i < 0 then TWO32 else 0, 4);
      assert TWO32 * (2 * HalfRange(4)) == TWO64;
    }
  }

  lemma SvarintItemBack(i: int, size: nat)
    requires IntWidth(size) && SignedFits(i, size)
    ensures SvarintItem(ZigZag(i), size) == Some(i)
  {
    hide Narrow, ZigZag, UnZigZag;
    NarrowFits(i, 0, size);
    ZigZagBijection(i, 0);
  }

  lemma UvarintItemBack(i: int, size: nat)
    requires IntWidth(size) && UnsignedFits(i, size)
    ensures UvarintItem(i, size) == Some(i)
  {
    ModUnique(i, 2 * HalfRange(size), 0, i);
  }

  /** A single item, but for submessages */
  lemma ScalarBack(f: Field, v: Value, rest: seq<byte>)
    requires FieldOk(f) && StorableValue(f, v) && !f.ltype.SUBMESSAGE?
    ensures EncodeValue(f, v).Some?
    ensures DecodeScalar(f, EncodeValue(f, v).value + rest) == Ok(v, rest)
  {
    hide Decode, Encode, Decode32, VarintItem, SvarintItem, UvarintItem, FromLittleEndian, LittleEndian;
    hide Delimited, CString, ZigZag, Zeros;
    match f.ltype {
      case VARINT =>
        VarintItemBack(v.i, f.dataSize);
        DecodeEncode(AsUnsigned(v.i), rest);
      case UVARINT =>
        UvarintItemBack(v.i, f.dataSize);
        DecodeEncode(v.i, rest);
      case SVARINT =>
        SvarintItemBack(v.i, f.dataSize);
        DecodeEncode(ZigZag(v.i), rest);
      case FIXED32 =>
        WordSizes();
        LittleEndianRoundTrip(v.i, 4);
        TakeAll(LittleEndian(v.i, 4), rest);
      case FIXED64 =>
        WordSizes();
        LittleEndianRoundTrip(v.i, 8);
        TakeAll(LittleEndian(v.i, 8), rest);
      case BYTES =>
        TakeDelimitedBack(v.bytes, rest);
        TakeAll(v.bytes, rest);
      case STRING =>
        assert CString(v.bytes) == v.bytes;
        TakeDelimitedBack(v.bytes, rest);
        TakeAll(v.bytes, rest);
      case FIXED_LENGTH_BYTES =>
        TakeDelimitedBack(v.bytes, rest);
        TakeAll(v.bytes, rest);
        assert f.dataSize == 0 ==> v.bytes == Zeros(f.dataSize) && v.bytes + rest == rest;
    }
  }

  // One field on the wire

  lemma {:induction false} FindBack(fields: seq<Field>, i: nat)
    requires i < |fields| && forall a, b | 0 <= a < b < |fields| :: fields[a].tag != fields[b].tag
    ensures Find(fields, fields[i].tag) == Some(i)
  {
    var n := |fields| - 1;
    if i < n {
      FindBack(fields[..n], i);
    }
  }

  /** The tracked required fields after field i was met */
  function SeenWith(fields: seq<Field>, i: nat, seen: set<nat>): set<nat>
    requires i < |fields|
  {
    var k := RequiredBefore(fields, i);
    if fields[i].htype == REQUIRED && k < MAX_REQUIRED then seen + {k} else seen
  }

  function SeenBefore(fields: seq<Field>, n: nat): set<nat>
    requires n <= |fields|
  {
    if n == 0 then {} else SeenWith(fields, n - 1, SeenBefore(fields, n - 1))
  }

  lemma {:induction false} AllSeen(fields: seq<Field>, n: nat, k: nat)
    requires n <= |fields| && k < RequiredBefore(fields, n) && k < MAX_REQUIRED
    ensures k in SeenBefore(fields, n)
  {
    if k < RequiredBefore(fields, n - 1) {
      AllSeen(fields, n - 1, k);
    }
  }

  /** A tag and a payload that decodes take one turn. */
  lemma TakeTagged(fields: seq<Field>, i: nat, wireType: nat, payload: seq<byte>, rest: seq<byte>, p: Progress, fv: FieldVal)
    requires WellFormed(fields) && i < |fields| && |p.vals| == |fields| && wireType < 8
    requires DecodeField(fields[i], wireType, payload + rest, p.vals[i]) == Ok(fv, rest)
    ensures TakeFields(fields, Tag(wireType, fields[i].tag) + payload + rest, p)
            == TakeFields(fields, rest, Progress(Store(fields, p.vals, i, fv), SeenWith(fields, i, p.seen)))
  {
    hide DecodeField, Decode32, Encode, RequiredBefore, Find, Skip, Store, Defaults;
    assert FieldOk(fields[i]);
    var key := 8 * fields[i].tag + wireType;
    var bs := Tag(wireType, fields[i].tag) + payload + rest;
    assert bs == Encode(key) + (payload + rest);
    Decode32Small(key, payload + rest);
    FindBack(fields, i);
    assert bs != [];
  }

  // Whole structs

  /** A struct whose first i fields hold their values, and whose others are as pb_message_set_to_defaults left them */
  function Mixed(fields: seq<Field>, vals: seq<FieldVal>, i: nat): (m: seq<FieldVal>)
    requires i <= |fields| == |vals|
    ensures |m| == |fields|
    ensures forall j | 0 <= j < |m| :: m[j] == if j < i then vals[j] else DefaultField(fields[j])
  {
    vals[..i] + Defaults(fields)[i..]
  }

  /** Storing the next field moves the struct one field on: no other member of its union is set. */
  lemma StoreMixed(fields: seq<Field>, vals: seq<FieldVal>, i: nat)
    requires i < |fields| == |vals|
    requires fields[i].htype.ONEOF? ==> vals[i] != Opt(None)
    requires forall j, k | 0 <= j < k < |fields| && SameUnion(fields[j], fields[k]) :: vals[j] == Opt(None) || vals[k] == Opt(None)
    ensures Store(fields, Mixed(fields, vals, i), i, vals[i]) == Mixed(fields, vals, i + 1)
  {
    hide Defaults, DefaultValue;
    forall j | 0 <= j < |fields|
      ensures Store(fields, Mixed(fields, vals, i), i, vals[i])[j] == Mixed(fields, vals, i + 1)[j]
    {
    }
  }

  /** A proto3 singular field that is not written holds the default. */
  lemma {:induction false} DefaultBack(f: Field, v: Value)
    requires StorableValue(f, v) && IsDefault(f, v)
    ensures v == DefaultValue(f)
    decreases f
  {
    match f.ltype {
      case SUBMESSAGE(sub) =>
        DefaultsBack(sub, v.vals);
      case _ =>
    }
  }

  lemma {:induction false} DefaultsBack(fields: seq<Field>, vals: seq<FieldVal>)
    requires Typed(fields, vals) && AllDefault(fields, vals)
    requires forall i | 0 <= i < |fields| :: StorableField(fields[i], vals[i])
    ensures vals == Defaults(fields)
    decreases fields
  {
    if fields != [] {
      var f := fields[0];
      if f.htype == OPTIONAL && !f.HasFlag() {
        DefaultBack(f, vals[0].v);
      }
      DefaultsBack(fields[1..], vals[1..]);
      assert vals == [vals[0]] + vals[1..];
    }
  }

  /** `s` is what the encoder writes, and short enough for every length in it to be read back. */
  predicate Written(e: Option<seq<byte>>, s: seq<byte>) {
    e == Some(s) && |s| < TWO32
  }

  /** An item of any type */
  lemma {:induction false} ItemBack(f: Field, v: Value, s: seq<byte>, rest: seq<byte>)
    requires FieldOk(f) && StorableValue(f, v) && Written(EncodeValue(f, v), s)
    ensures DecodeItem(f, s + rest, DefaultValue(f)) == Ok(v, rest)
    decreases f, 0
  {
    hide DecodeScalar, Defaults, Delimited, TakeDelimited, DecodeNoinit, EncodeFields, Storable, WellFormed;
    if f.ltype.SUBMESSAGE? {
      var sub := f.ltype.fields;
      var inner := EncodeFields(sub, v.vals).value;
      assert |inner| < |s| by { DelimitedLonger(inner); }
      TakeDelimitedBack(inner, rest);
      StructBack(sub, v.vals, inner, []);
      assert inner + [] == inner;
    } else {
      ScalarBack(f, v, rest);
    }
  }

  lemma DelimitedLonger(s: seq<byte>)
    ensures |s| < |Delimited(s)|
  {
  }

  /** One more item of an array, with a tag of its own */
  lemma RepeatedItemBack(f: Field, wireType: nat, bs: seq<byte>, vs: seq<Value>, v: Value, rest: seq<byte>)
    requires f.htype == REPEATED && (f.ltype.Packable() ==> wireType != WT_STRING) && |vs| < f.arraySize
    requires DecodeItem(f, bs, DefaultValue(f)) == Ok(v, rest)
    ensures DecodeField(f, wireType, bs, Many(vs)) == Ok(Many(vs + [v]), rest)
  {
    hide DecodeItem, DefaultValue, TakeDelimited, DecodePacked;
  }

  /** Items each with its tag, numbers too, are added to those that are there. */
  lemma {:induction false} TaggedItemsBack(
    fields: seq<Field>, i: nat, us: seq<Value>, vs: seq<Value>, s: seq<byte>, rest: seq<byte>, p: Progress)
    requires WellFormed(fields) && i < |fields| && |p.vals| == |fields|
    requires var f := fields[i]; f.htype == REPEATED && |us| + |vs| <= f.arraySize
    requires p.vals[i] == Many(us)
    requires forall v <- vs :: TypedValue(fields[i], v) && StorableValue(fields[i], v)
    requires Written(EncodeItems(fields[i], vs, true), s)
    ensures TakeFields(fields, s + rest, p)
            == TakeFields(fields, rest, p.(vals := Store(fields, p.vals, i, Many(us + vs))))
    decreases fields, 0, |vs|
  {
    hide TakeFields, Tag, EncodeValue, Store, DecodeField, DecodeItem, DefaultValue, StorableValue, TypedValue;
    var f := fields[i];
    if vs == [] {
      assert s + rest == rest && us + vs == us;
      assert Store(fields, p.vals, i, Many(us)) == p.vals by { StoreSame(fields, p.vals, i); }
    } else {
      var n := |vs| - 1;
      var s1 := EncodeItems(f, vs[..n], true).value;
      var payload := EncodeValue(f, vs[n]).value;
      var t := Tag(WireType(f.ltype), f.tag) + payload;
      assert s == s1 + t;
      TaggedItemsBack(fields, i, us, vs[..n], s1, t + rest, p);
      var p1 := p.(vals := Store(fields, p.vals, i, Many(us + vs[..n])));
      ItemBack(f, vs[n], payload, rest);
      assert us + vs[..n] + [vs[n]] == us + vs;
      RepeatedItemBack(f, WireType(f.ltype), payload + rest, us + vs[..n], vs[n], rest);
      StoreTwice(fields, p.vals, i, Many(us + vs[..n]), Many(us + vs));
      TakeTagged(fields, i, WireType(f.ltype), payload, rest, p1, Many(us + vs));
      assert t + rest == Tag(WireType(f.ltype), f.tag) + payload + rest;
      assert s + rest == s1 + (t + rest);
    }
  }

  lemma StoreSame(fields: seq<Field>, vals: seq<FieldVal>, i: nat)
    requires i < |fields| == |vals| && !fields[i].htype.ONEOF?
    ensures Store(fields, vals, i, vals[i]) == vals
  {
  }

  lemma StoreTwice(fields: seq<Field>, vals: seq<FieldVal>, i: nat, a: FieldVal, b: FieldVal)
    requires i < |fields| == |vals|
    ensures Store(fields, Store(fields, vals, i, a), i, b) == Store(fields, vals, i, b)
    ensures Store(fields, vals, i, a)[i] == a
  {
  }

  /** The items of a packed array are added to those that are there. */
  lemma {:induction false} PackedBack(f: Field, us: seq<Value>, vs: seq<Value>, s: seq<byte>, rest: seq<byte>)
    requires FieldOk(f) && f.ltype.Packable() && |us| + |vs| <= f.arraySize
    requires forall v <- vs :: TypedValue(f, v) && StorableValue(f, v)
    requires EncodeItems(f, vs, false) == Some(s)
    ensures DecodePacked(f, s + rest, us) == DecodePacked(f, rest, us + vs)
    decreases |vs|
  {
    hide EncodeValue, DecodeScalar;
    if vs == [] {
      assert s + rest == rest && us + vs == us;
    } else {
      var n := |vs| - 1;
      var s1, t := EncodeItems(f, vs[..n], false).value, EncodeValue(f, vs[n]).value;
      PackedBack(f, us, vs[..n], s1, t + rest);
      ScalarBack(f, vs[n], rest);
      DecodeScalarShrinks(f, t + rest);
      assert us + vs[..n] + [vs[n]] == us + vs;
      assert s + rest == s1 + (t + rest);
    }
  }

  lemma PackedDone(f: Field, vs: seq<Value>)
    ensures DecodePacked(f, [], vs) == Some(vs)
  {
  }

  lemma PackedFieldBack(f: Field, us: seq<Value>, vs: seq<Value>, items: seq<byte>, rest: seq<byte>)
    requires FieldOk(f) && f.htype == REPEATED && f.ltype.Packable() && |us| + |vs| <= f.arraySize
    requires forall v <- vs :: TypedValue(f, v) && StorableValue(f, v)
    requires Written(EncodeItems(f, vs, false), items)
    ensures DecodeField(f, WT_STRING, Delimited(items) + rest, Many(us)) == Ok(Many(us + vs), rest)
  {
    hide DecodeItem, TakeDelimited, DecodePacked, Delimited, EncodeItems;
    TakeDelimitedBack(items, rest);
    PackedBack(f, us, vs, items, []);
    assert items + [] == items;
    PackedDone(f, us + vs);
  }

  /** What one field adds to the message takes the struct one field on. */
  lemma {:induction false} FieldBack(fields: seq<Field>, vals: seq<FieldVal>, i: nat, s: seq<byte>, rest: seq<byte>)
    requires WellFormed(fields) && Storable(fields, vals) && i < |fields|
    requires Written(EncodeField(fields[i], vals[i]), s)
    ensures TakeFields(fields, s + rest, Progress(Mixed(fields, vals, i), SeenBefore(fields, i)))
            == TakeFields(fields, rest, Progress(Mixed(fields, vals, i + 1), SeenBefore(fields, i + 1)))
    decreases fields, 1
  {
    hide TakeFields, Tag, EncodeValue, Defaults, DefaultValue, DecodeItem, TakeDelimited, IsDefault;
    hide EncodeItems, DecodePacked, Delimited;
    var f, fv := fields[i], vals[i];
    var p := Progress(Mixed(fields, vals, i), SeenBefore(fields, i));
    assert TypedField(f, fv) && StorableField(f, fv) && FieldOk(f);
    if s == [] && f.htype != REQUIRED {
      assert s + rest == rest;
      NothingWritten(f, fv);
      assert Mixed(fields, vals, i) == Mixed(fields, vals, i + 1);
    } else if f.htype == REPEATED && !f.ltype.Packable() {
      assert [] + fv.vs == fv.vs;
      TaggedItemsBack(fields, i, [], fv.vs, s, rest, p);
      StoreMixed(fields, vals, i);
    } else if f.htype == REPEATED {
      var items := EncodeItems(f, fv.vs, false).value;
      DelimitedLonger(items);
      assert [] + fv.vs == fv.vs;
      PackedFieldBack(f, [], fv.vs, items, rest);
      StoreMixed(fields, vals, i);
      TakeTagged(fields, i, WT_STRING, Delimited(items), rest, p, fv);
    } else {
      var v := if fv.One? then fv.v else fv.o.value;
      var payload := EncodeValue(f, v).value;
      ItemBack(f, v, payload, rest);
      StoreMixed(fields, vals, i);
      TakeTagged(fields, i, WireType(f.ltype), payload, rest, p, fv);
    }
  }

  /** A field that adds nothing to the message is as the decoder starts with. */
  lemma NothingWritten(f: Field, fv: FieldVal)
    requires TypedField(f, fv) && StorableField(f, fv) && f.htype != REQUIRED
    requires EncodeField(f, fv) == Some([])
    ensures fv == DefaultField(f)
  {
    hide DefaultValue, EncodeItems, EncodeValue;
    if f.htype == OPTIONAL && !f.HasFlag() && IsDefault(f, fv.v) {
      DefaultBack(f, fv.v);
    }
    if f.htype == REPEATED && fv.vs != [] {
      SomethingWritten(f, fv.vs);
    }
  }

  lemma SomethingWritten(f: Field, vs: seq<Value>)
    requires vs != [] && forall v <- vs :: TypedValue(f, v)
    ensures EncodeArray(f, vs) != Some([])
  {
    hide EncodeValue;
    var e := EncodeItems(f, vs, true);
    if e.Some? {
      assert |e.value| >= |EncodeItem(f, vs[|vs| - 1]).value| > 0;
    }
  }

  /** The fields from i on */
  lemma {:induction false} FieldsBack(fields: seq<Field>, vals: seq<FieldVal>, i: nat, s: seq<byte>, rest: seq<byte>)
    requires WellFormed(fields) && Storable(fields, vals) && i <= |fields|
    requires Typed(fields[i..], vals[i..]) && Written(EncodeFields(fields[i..], vals[i..]), s)
    ensures TakeFields(fields, s + rest, Progress(Mixed(fields, vals, i), SeenBefore(fields, i)))
            == TakeFields(fields, rest, Progress(vals, SeenBefore(fields, |fields|)))
    decreases fields, 2, |fields| - i
  {
    hide TakeFields, EncodeField, Defaults, DefaultField, SeenBefore;
    if i == |fields| {
      assert s + rest == rest;
      assert Mixed(fields, vals, i) == vals;
    } else {
      assert fields[i..][0] == fields[i] && vals[i..][0] == vals[i];
      assert fields[i..][1..] == fields[i + 1..] && vals[i..][1..] == vals[i + 1..];
      var s1 := EncodeField(fields[i], vals[i]).value;
      var s2 := EncodeFields(fields[i + 1..], vals[i + 1..]).value;
      FieldBack(fields, vals, i, s1, s2 + rest);
      FieldsBack(fields, vals, i + 1, s2, rest);
      assert s + rest == s1 + (s2 + rest);
    }
  }

  /** A whole struct: decoding its encoding, up to the end of the stream or a zero tag, gives it back. */
  lemma {:induction false} StructBack(fields: seq<Field>, vals: seq<FieldVal>, s: seq<byte>, rest: seq<byte>)
    requires WellFormed(fields) && Storable(fields, vals) && Written(EncodeFields(fields, vals), s)
    requires rest == [] || rest[0] == 0
    ensures DecodeNoinit(fields, s + rest, Defaults(fields)) == Some(vals)
    decreases fields, 3
  {
    hide TakeFields, Defaults, EncodeFields, RequiredBefore;
    assert fields[0..] == fields && vals[0..] == vals;
    FieldsBack(fields, vals, 0, s, rest);
    assert Mixed(fields, vals, 0) == Defaults(fields);
    ZeroTagEnds(fields, rest, Progress(vals, SeenBefore(fields, |fields|)));
    forall k: nat | k < RequiredBefore(fields, |fields|) && k < MAX_REQUIRED ensures k in SeenBefore(fields, |fields|) {
      AllSeen(fields, |fields|, k);
    }
  }

  lemma ZeroTagEnds(fields: seq<Field>, rest: seq<byte>, p: Progress)
    requires |p.vals| == |fields| && (rest == [] || rest[0] == 0)
    ensures TakeFields(fields, rest, p) == Some(p)
  {
  }

  /** Every struct within its bounds is written without an error. */
  lemma {:induction false} Encodable(fields: seq<Field>, vals: seq<FieldVal>)
    requires Storable(fields, vals)
    ensures EncodeFields(fields, vals).Some?
    decreases fields
  {
    hide IsDefault;
    if fields != [] {
      assert StorableField(fields[0], vals[0]);
      FieldEncodable(fields[0], vals[0]);
      assert Storable(fields[1..], vals[1..]);
      Encodable(fields[1..], vals[1..]);
    }
  }

  lemma {:induction false} FieldEncodable(f: Field, fv: FieldVal)
    requires TypedField(f, fv) && StorableField(f, fv)
    ensures EncodeField(f, fv).Some?
    decreases f, 2
  {
    hide EncodeValue, IsDefault;
    match fv {
      case One(v) => ValueEncodable(f, v);
      case Opt(o) => if o.Some? { ValueEncodable(f, o.value); }
      case Many(vs) =>
        ItemsEncodable(f, vs, true);
        ItemsEncodable(f, vs, false);
    }
  }

  lemma {:induction false} ItemsEncodable(f: Field, vs: seq<Value>, tagged: bool)
    requires forall v <- vs :: TypedValue(f, v) && StorableValue(f, v)
    ensures EncodeItems(f, vs, tagged).Some?
    decreases f, 1, |vs|
  {
    hide EncodeValue;
    if vs != [] {
      ItemsEncodable(f, vs[..|vs| - 1], tagged);
      ValueEncodable(f, vs[|vs| - 1]);
    }
  }

  lemma {:induction false} ValueEncodable(f: Field, v: Value)
    requires StorableValue(f, v)
    ensures EncodeValue(f, v).Some?
    decreases f, 0
  {
    if f.ltype.SUBMESSAGE? {
      Encodable(f.ltype.fields, v.vals);
    }
  }

  /**
    * The round trip: for every well-formed field list and every struct within its bounds, pb_encode
    * succeeds, and pb_decode of what it writes, if shorter than 4 GiB, gives the struct back; so it does
    * when a zero byte follows (pb_encode_nullterminated), whatever comes after.
    */
  lemma RoundTrip(fields: seq<Field>, vals: seq<FieldVal>, junk: seq<byte>)
    requires WellFormed(fields) && Storable(fields, vals)
    ensures EncodeFields(fields, vals).Some?
    ensures var s := EncodeFields(fields, vals).value;
            |s| < TWO32 ==> DecodeMessage(fields, s) == Some(vals) && DecodeMessage(fields, s + [0] + junk) == Some(vals)
  {
    hide EncodeFields, DecodeNoinit;
    Encodable(fields, vals);
    var s := EncodeFields(fields, vals).value;
    if |s| < TWO32 {
      StructBack(fields, vals, s, []);
      StructBack(fields, vals, s, [0] + junk);
      assert s + [] == s && s + [0] + junk == s + ([0] + junk);
    }
  }
}
