/**
  * Exactly what the nanopb coders do with single fields: which are left out, which cannot be written, which numbers and
  * byte strings a field takes, and what becomes of a field that comes more than once.
  */
module PbExact {
  import Bits
  import opened Bytes
  import opened Varint
  import opened PbSchema
  import opened PbEncodeSpec
  import opened PbDecodeSpec
  import opened PbRoundTrip
  import opened PbUnknown
  import VarintAny

  // Fields that are left out

  /** The type has a default that the encoder knows: no bytes of fixed length and no required field is in it. */
  predicate HasDefault(f: Field)
    decreases f, 0
  {
    match f.ltype
    case FIXED_LENGTH_BYTES => f.dataSize == 0
    case SUBMESSAGE(sub) => AllHaveDefaults(sub)
    case _ => true
  }

  predicate AllHaveDefaults(fields: seq<Field>)
    decreases fields
  {
    fields == [] ||
    (&& fields[0].htype != REQUIRED
     && (fields[0].htype == OPTIONAL && !fields[0].HasFlag() ==> HasDefault(fields[0]))
     && AllHaveDefaults(fields[1..]))
  }

  lemma {:induction false} DefaultExactly(f: Field, v: Value)
    requires TypedValue(f, v)
    ensures IsDefault(f, v) <==> v == DefaultValue(f) && HasDefault(f)
    decreases f
  {
    match f.ltype {
      case SUBMESSAGE(sub) => DefaultsExactly(sub, v.vals);
      case FIXED_LENGTH_BYTES => assert v.bytes == [] ==> v.bytes == Zeros(0);
      case _ =>
    }
  }

  lemma {:induction false} DefaultsExactly(fields: seq<Field>, vals: seq<FieldVal>)
    requires Typed(fields, vals)
    ensures AllDefault(fields, vals) <==> vals == Defaults(fields) && AllHaveDefaults(fields)
    decreases fields
  {
    hide DefaultValue;
    if fields != [] {
      var f := fields[0];
      assert TypedField(f, vals[0]);
      if f.htype == OPTIONAL && !f.HasFlag() {
        DefaultExactly(f, vals[0].v);
      }
      DefaultsExactly(fields[1..], vals[1..]);
      assert vals == [vals[0]] + vals[1..];
      assert vals == Defaults(fields) <==> vals[0] == DefaultField(f) && vals[1..] == Defaults(fields[1..]);
    }
  }

  /** A proto3 singular field is left out exactly when it holds the default of a type that has one. */
  lemma LeftOutExactly(f: Field, fv: FieldVal)
    requires FieldOk(f) && TypedField(f, fv) && f.htype == OPTIONAL && !f.HasFlag()
    ensures EncodeField(f, fv) == Some([]) <==> fv == DefaultField(f) && HasDefault(f)
  {
    hide IsDefault, EncodeValue, DefaultValue, HasDefault;
    DefaultExactly(f, fv.v);
  }

  /** Zero memory, read as a value: zeros, nothing in strings and arrays, and no optional field there */
  predicate IsZero(v: Value) {
    match v
    case Int(i) => i == 0
    case Raw(bytes) => forall b <- bytes :: b == 0
    case Msg(vals) => forall fv <- vals :: IsZeroField(fv)
  }

  predicate IsZeroField(fv: FieldVal) {
    match fv
    case One(v) => IsZero(v)
    case Opt(o) => o.None?
    case Many(vs) => vs == []
  }

  /** The struct that decoding starts from is all zeros. */
  lemma {:induction false} DefaultIsZero(f: Field)
    ensures IsZero(DefaultValue(f)) && IsZeroField(DefaultField(f))
    decreases f
  {
    match f.ltype {
      case SUBMESSAGE(sub) =>
        forall i | 0 <= i < |sub| ensures IsZeroField(Defaults(sub)[i]) {
          DefaultIsZero(sub[i]);
        }
      case _ =>
    }
  }

  // Structs that cannot be written

  predicate WritableValue(f: Field, v: Value)
    requires TypedValue(f, v)
    decreases f, 0
  {
    match f.ltype
    case BYTES => |v.bytes| + BYTES_OFFSET <= f.dataSize
    case SUBMESSAGE(sub) => Writable(sub, v.vals)
    case _ => true
  }

  predicate WritableField(f: Field, fv: FieldVal)
    requires TypedField(f, fv)
    decreases f, 1
  {
    match fv
    case One(v) => WritableValue(f, v)
    case Opt(o) => o.Some? ==> WritableValue(f, o.value)
    case Many(vs) => |vs| <= f.arraySize && forall v <- vs :: WritableValue(f, v)
  }

  /** Every array has no more entries than fit, and every byte array no more bytes. */
  predicate Writable(fields: seq<Field>, vals: seq<FieldVal>)
    requires Typed(fields, vals)
    decreases fields
  {
    forall i | 0 <= i < |fields| :: WritableField(fields[i], vals[i])
  }

  lemma {:induction false} ValueWritten(f: Field, v: Value)
    requires FieldOk(f) && TypedValue(f, v)
    ensures EncodeValue(f, v).Some? <==> WritableValue(f, v)
    decreases f, 0
  {
    hide Encode, LittleEndian, ZigZag, Delimited;
    if f.ltype.SUBMESSAGE? {
      WrittenExactly(f.ltype.fields, v.vals);
    }
  }

  lemma {:induction false} ItemsWritten(f: Field, vs: seq<Value>, tagged: bool)
    requires FieldOk(f) && forall v <- vs :: TypedValue(f, v)
    ensures EncodeItems(f, vs, tagged).Some? <==> forall v <- vs :: WritableValue(f, v)
    decreases f, 1, |vs|
  {
    hide EncodeValue, WritableValue, TypedValue, FieldOk;
    if vs != [] {
      var n := |vs| - 1;
      ItemsWritten(f, vs[..n], tagged);
      ValueWritten(f, vs[n]);
      assert vs[n] in vs && forall v <- vs :: v in vs[..n] || v == vs[n];
    }
  }

  lemma {:induction false} FieldWritten(f: Field, fv: FieldVal)
    requires FieldOk(f) && TypedField(f, fv)
    ensures EncodeField(f, fv).Some? <==> WritableField(f, fv)
    decreases f, 2
  {
    hide EncodeValue, EncodeItems, IsDefault, TypedValue, WritableValue, DefaultValue, HasDefault, Tag, Delimited;
    match fv {
      case One(v) =>
        ValueWritten(f, v);
        if f.htype == OPTIONAL && !f.HasFlag() {
          DefaultExactly(f, v);
          if IsDefault(f, v) {
            DefaultWritable(f);
          }
        }
      case Opt(o) => if o.Some? { ValueWritten(f, o.value); }
      case Many(vs) =>
        ItemsWritten(f, vs, true);
        ItemsWritten(f, vs, false);
    }
  }

  lemma {:induction false} DefaultWritable(f: Field)
    requires FieldOk(f)
    ensures TypedValue(f, DefaultValue(f)) && WritableValue(f, DefaultValue(f))
    decreases f
  {
    match f.ltype {
      case SUBMESSAGE(sub) => DefaultsWritable(sub);
      case _ =>
    }
  }

  lemma {:induction false} DefaultsWritable(fields: seq<Field>)
    requires WellFormed(fields)
    ensures Typed(fields, Defaults(fields)) && Writable(fields, Defaults(fields))
    decreases fields
  {
    hide DefaultValue, Defaults;
    forall i | 0 <= i < |fields|
      ensures TypedField(fields[i], DefaultField(fields[i])) && WritableField(fields[i], DefaultField(fields[i]))
    {
      DefaultWritable(fields[i]);
    }
  }

  /** pb_encode reports an error of its own exactly when an array or byte array is over-full. */
  lemma {:induction false} WrittenExactly(fields: seq<Field>, vals: seq<FieldVal>)
    requires WellFormed(fields) && Typed(fields, vals)
    ensures EncodeFields(fields, vals).Some? <==> Writable(fields, vals)
    decreases fields, 3
  {
    hide EncodeField, WritableField, FieldOk;
    if fields != [] {
      FieldWritten(fields[0], vals[0]);
      WrittenExactly(fields[1..], vals[1..]);
      assert forall i | 1 <= i < |fields| :: fields[i] == fields[1..][i - 1] && vals[i] == vals[1..][i - 1];
    }
  }

  // The items a field takes

  /** The low 32 bits as a signed number */
  function Signed32(value: nat): int {
    var low := value % TWO32;
    if low >= TWO31 then low - TWO32 else low
  }

  lemma NarrowIsFit(i: int, size: nat)
    requires IntWidth(size)
    ensures Narrow(i, size) == i <==> SignedFits(i, size)
  {
    if SignedFits(i, size) {
      NarrowFits(i, 0, size);
    }
  }

  lemma NarrowTo32(value: nat)
    ensures Narrow(value, 4) == Signed32(value)
  {
    var low := value % TWO32;
    assert value == low + value / TWO32 * TWO32;
    NarrowFits(Signed32(value), (value - Signed32(value)) / TWO32, 4);
  }

  /**
    * A number that its field cannot hold is refused, never cut down; but a signed field of 32 bits and less takes the
    * low 32 bits of the number for it.
    */
  lemma IntItemExact(value: nat, size: nat)
    requires value < TWO64 && IntWidth(size)
    ensures UvarintItem(value, size) == if UnsignedFits(value, size) then Some(value) else None
    ensures SvarintItem(value, size) == if SignedFits(UnZigZag(value), size) then Some(UnZigZag(value)) else None
    ensures var n := if size == 8 then AsSigned(value) else Signed32(value);
            VarintItem(value, size) == if SignedFits(n, size) then Some(n) else None
  {
    hide Narrow, UnZigZag, Signed32;
    NarrowIsFit(UnZigZag(value), size);
    NarrowTo32(value);
    NarrowIsFit(if size == 8 then AsSigned(value) else Signed32(value), size);
    if UnsignedFits(value, size) {
      Bits.ModUnique(value, 2 * HalfRange(size), 0, value);
    }
  }

  /** Byte strings that their field cannot hold are refused, never cut short. */
  lemma DelimitedItemExact(f: Field, s: seq<byte>, rest: seq<byte>)
    requires |s| < TWO32 && f.ltype in {BYTES, STRING, FIXED_LENGTH_BYTES}
    ensures DecodeScalar(f, Delimited(s) + rest)
            == match f.ltype
               case BYTES => if |s| + BYTES_OFFSET <= f.dataSize then Ok(Raw(s), rest) else Fail
               case STRING => if |s| < f.dataSize then Ok(Raw(CString(s)), rest) else Fail
               case _ =>
                 if |s| == f.dataSize then Ok(Raw(s), rest)
                 else if s == [] then Ok(Raw(Zeros(f.dataSize)), rest) else Fail
  {
    hide Delimited, Decode32, CString, Zeros;
    TakeDelimitedBack(s, rest);
    TakeAll(s, rest);
    if f.ltype.FIXED_LENGTH_BYTES? && |s| == 0 {
      assert Zeros(0) == [] && s + rest == rest;
    }
  }

  // Messages that are refused

  /** A message that ends within a key is refused, whatever fields it starts with. */
  lemma CutKeyRefused(fields: seq<Field>, a: seq<byte>, p: Progress, q: Progress, cut: seq<byte>)
    requires |p.vals| == |fields| == |q.vals| && Consumes(fields, a, p, q)
    requires cut != [] && forall i | 0 <= i < |cut| :: cut[i] >= 0x80
    ensures TakeFields(fields, a + cut, p) == None
  {
    hide TakeFields, Consumes;
    TakeFieldsThen(fields, a, p, q, cut);
    CutKey(fields, cut, q);
  }

  lemma CutKey(fields: seq<Field>, cut: seq<byte>, p: Progress)
    requires |p.vals| == |fields| && cut != [] && forall i | 0 <= i < |cut| :: cut[i] >= 0x80
    ensures TakeFields(fields, cut, p) == None
  {
    hide Decode32From;
    Decode32Cut(cut[1..], 7, cut[0] % 0x80);
  }

  lemma {:induction false} Decode32Cut(bs: seq<byte>, bitpos: nat, result: nat)
    requires forall i | 0 <= i < |bs| :: bs[i] >= 0x80
    ensures Decode32From(bs, bitpos, result) == Fail
    decreases |bs|
  {
    hide Bits.Or, Bits.Shl;
    if bs != [] {
      var result' := if bitpos >= 32 then result else Bits.Or(result, Bits.Shl(bs[0] % 0x80, bitpos, 32));
      Decode32Cut(bs[1..], (bitpos + 7) % 0x100, result');
    }
  }

  /** So is one with a key that is not a 32-bit number. */
  lemma BadKeyRefused(fields: seq<Field>, a: seq<byte>, p: Progress, q: Progress, key: seq<byte>, rest: seq<byte>)
    requires |p.vals| == |fields| == |q.vals| && Consumes(fields, a, p, q)
    requires Terminated(key) && |key| <= VarintAny.LONGEST && !VarintAny.Reads32(key)
    ensures TakeFields(fields, a + (key + rest), p) == None
  {
    hide TakeFields, Consumes, Decode32, VarintAny.Reads32;
    TakeFieldsThen(fields, a, p, q, key + rest);
    VarintAny.Decode32Any(key, rest);
    BadTurnRefused(fields, key + rest, q);
  }

  lemma BadTurnRefused(fields: seq<Field>, bs: seq<byte>, p: Progress)
    requires |p.vals| == |fields| && bs != [] && Decode32(bs) == Fail
    ensures TakeFields(fields, bs, p) == None
  {
  }

  lemma {:induction false} SkipVarintLength(bs: seq<byte>) returns (n: nat)
    requires SkipVarint(bs).Ok?
    ensures n <= |bs| && SkipVarint(bs) == Ok((), bs[n..])
    decreases |bs|
  {
    n := 1;
    if bs[0] >= 0x80 {
      n := SkipVarintLength(bs[1..]);
      n := n + 1;
    }
  }

  /** What skipping leaves is the end of the stream. */
  lemma SkipLength(bs: seq<byte>, wireType: nat) returns (n: nat)
    requires Skip(bs, wireType).Ok?
    ensures n <= |bs| && Skip(bs, wireType) == Ok((), bs[n..])
  {
    hide Decode32, SkipVarint;
    if wireType == WT_VARINT {
      n := SkipVarintLength(bs);
    } else if wireType == WT_STRING {
      n := Decode32Front(bs);
      n := n + Decode32(bs).value;
    } else {
      n := if wireType == WT_64BIT then 8 else 4;
    }
  }

  /** An unknown field is skipped when what follows its key begins with a payload of its wire type, and else refused. */
  lemma UnknownExactly(fields: seq<Field>, bs: seq<byte>, p: Progress) returns (n: nat)
    requires |p.vals| == |fields| && Decode32(bs).Ok? && Decode32(bs).value != 0
    requires forall f <- fields :: f.tag != Decode32(bs).value / 8
    ensures var key, rest := Decode32(bs).value, Decode32(bs).rest;
            if (key / 8 > 0 || fields != []) && exists k: nat :: k <= |rest| && IsPayload(key % 8, rest[..k])
            then n <= |rest| && IsPayload(key % 8, rest[..n]) && TakeFields(fields, bs, p) == TakeFields(fields, rest[n..], p)
            else TakeFields(fields, bs, p) == None
  {
    hide Decode32, IsPayload, DecodeField, Store, Skip;
    var key, rest := Decode32(bs).value, Decode32(bs).rest;
    n := 0;
    assert Find(fields, key / 8).None?;
    assert bs != [] by { Decode32Shrinks(bs); }
    forall k: nat | k <= |rest| ensures IsPayload(key % 8, rest[..k]) <==> Skip(rest, key % 8) == Ok((), rest[k..]) {
      SkipExact(key % 8, rest, rest[..k], rest[k..]);
    }
    if Skip(rest, key % 8).Ok? {
      n := SkipLength(rest, key % 8);
      assert IsPayload(key % 8, rest[..n]);
    }
    if key / 8 == 0 && fields == [] {
      assert TakeField(fields, bs, p) == Bad;
    } else if Skip(rest, key % 8).Ok? {
      assert TakeField(fields, bs, p) == Took(p, rest[n..]);
    } else {
      assert TakeField(fields, bs, p) == Bad;
    }
  }

  // Fields that come more than once

  /** What a singular field held does not matter, unless it is a submessage outside of a oneof. */
  lemma LastWins(f: Field, wireType: nat, bs: seq<byte>, before: FieldVal, before': FieldVal)
    requires f.htype != REPEATED && (f.ltype.SUBMESSAGE? ==> f.htype.ONEOF?)
    ensures DecodeField(f, wireType, bs, before) == DecodeField(f, wireType, bs, before')
  {
    hide DecodeScalar, TakeDelimited, DecodeNoinit, DefaultValue;
  }

  /** The required fields met before play no part in what the bytes make of a struct. */
  lemma {:induction false} SeenApart(fields: seq<Field>, bs: seq<byte>, p: Progress, p': Progress)
    requires |p.vals| == |fields| && p'.vals == p.vals && p.seen <= p'.seen
    ensures var r, r' := TakeFields(fields, bs, p), TakeFields(fields, bs, p');
            && (r.Some? <==> r'.Some?)
            && (r.Some? ==> r.value.vals == r'.value.vals && r.value.seen <= r'.value.seen)
    decreases |bs|
  {
    hide DecodeField, Decode32, Find, Skip, Store, RequiredBefore;
    if bs != [] {
      var t, t' := TakeField(fields, bs, p), TakeField(fields, bs, p');
      if t.Took? {
        SeenApart(fields, t.rest, t.p, t'.p);
      }
    }
  }

  /** What a submessage makes of its two parts together */
  lemma NoinitMerged(fields: seq<Field>, vals: seq<FieldVal>, a: seq<byte>, b: seq<byte>, q: Progress)
    requires |vals| == |fields| == |q.vals| && Consumes(fields, a, Progress(vals, {}), q)
    requires DecodeNoinit(fields, a, vals).Some?
    ensures DecodeNoinit(fields, a, vals) == Some(q.vals)
    ensures DecodeNoinit(fields, b, q.vals).Some? ==> DecodeNoinit(fields, a + b, vals) == DecodeNoinit(fields, b, q.vals)
  {
    hide TakeFields, Consumes;
    TakeFieldsThen(fields, a, Progress(vals, {}), q, []);
    ZeroTagEnds(fields, [], q);
    assert a + [] == a;
    TakeFieldsThen(fields, a, Progress(vals, {}), q, b);
    SeenApart(fields, b, Progress(q.vals, {}), q);
  }

  /** What a singular field outside of a oneof holds when it holds v */
  function Held(f: Field, v: Value): FieldVal {
    if f.htype == OPTIONAL && f.HasFlag() then Opt(Some(v)) else One(v)
  }

  /** A singular submessage field is decoded into what it held. */
  lemma SubmessageField(f: Field, fv: FieldVal, s: seq<byte>, rest: seq<byte>)
    requires f.htype in {REQUIRED, OPTIONAL} && f.ltype.SUBMESSAGE? && |s| < TWO32
    ensures var r := DecodeNoinit(f.ltype.fields, s, SubmessageStart(f, Current(f, fv)));
            DecodeField(f, WT_STRING, Delimited(s) + rest, fv)
            == if r.Some? then Ok(Held(f, Msg(r.value)), rest) else Fail
  {
    hide TakeDelimited, DecodeNoinit, Delimited, SubmessageStart, Current;
    TakeDelimitedBack(s, rest);
  }

  /**
    * A submessage that comes in two parts, each accepted, is merged: the field is as if the parts had come in one.
    */
  lemma PartsMerge(f: Field, vals: seq<FieldVal>, a: seq<byte>, b: seq<byte>, q: Progress, rest: seq<byte>)
    requires f.htype in {REQUIRED, OPTIONAL} && f.ltype.SUBMESSAGE? && |a + b| < TWO32
    requires |vals| == |f.ltype.fields| == |q.vals| && Consumes(f.ltype.fields, a, Progress(vals, {}), q)
    ensures var first := DecodeField(f, WT_STRING, Delimited(a), Held(f, Msg(vals)));
            first.Ok? ==>
              var second := DecodeField(f, WT_STRING, Delimited(b) + rest, first.value);
              second.Ok? ==> DecodeField(f, WT_STRING, Delimited(a + b) + rest, Held(f, Msg(vals))) == second
  {
    hide DecodeField, DecodeNoinit, Delimited, Consumes;
    assert Delimited(a) + [] == Delimited(a);
    SubmessageField(f, Held(f, Msg(vals)), a, []);
    SubmessageField(f, Held(f, Msg(q.vals)), b, rest);
    SubmessageField(f, Held(f, Msg(vals)), a + b, rest);
    if DecodeNoinit(f.ltype.fields, a, vals).Some? {
      NoinitMerged(f.ltype.fields, vals, a, b, q);
    }
  }
}
