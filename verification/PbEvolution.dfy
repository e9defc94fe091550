/**
  * What pb_encode writes for a field says how long it is: a reader whose schema lacks the field skips it whole, and
  * so reads the fields it knows as they were written.
  */
module PbEvolution {
  import opened Bytes
  import opened Varint
  import opened PbSchema
  import opened PbEncodeSpec
  import opened PbDecodeSpec
  import opened PbRoundTrip
  import opened PbUnknown

  // The key of a field tells the form of what follows

  lemma {:induction false} EncodeIsPayload(v: nat)
    ensures IsPayload(WT_VARINT, Encode(v))
  {
    if v >= 0x80 {
      EncodeIsPayload(v / 0x80);
      var s := Encode(v);
      assert s[1..] == Encode(v / 0x80);
      forall i | 0 <= i < |s| - 1 ensures s[i] >= 0x80 {
        assert i > 0 ==> s[i] == s[1..][i - 1];
      }
      assert s[|s| - 1] == s[1..][|s| - 2];
    }
  }

  lemma DelimitedIsPayload(s: seq<byte>)
    requires |s| < TWO32
    ensures IsPayload(WT_STRING, Delimited(s))
  {
    hide Encode, Decode32;
    var n := |Encode(|s|)|;
    Decode32Small(|s|, []);
    assert Encode(|s|) + [] == Encode(|s|) == Delimited(s)[..n];
  }

  /** The payload of an item has the form of the wire type of its field. */
  lemma ValueIsPayload(f: Field, v: Value, s: seq<byte>)
    requires FieldOk(f) && TypedValue(f, v) && Written(EncodeValue(f, v), s)
    ensures IsPayload(WireType(f.ltype), s)
  {
    hide IsPayload, Encode, Delimited, ZigZag, LittleEndian;
    match f.ltype {
      case VARINT => EncodeIsPayload(AsUnsigned(v.i));
      case UVARINT => EncodeIsPayload(v.i);
      case SVARINT => EncodeIsPayload(ZigZag(v.i));
      case FIXED32 => FixedIsPayload(s);
      case FIXED64 => FixedIsPayload(s);
      case BYTES => DelimitedLonger(v.bytes); DelimitedIsPayload(v.bytes);
      case STRING => DelimitedLonger(v.bytes); DelimitedIsPayload(v.bytes);
      case FIXED_LENGTH_BYTES => DelimitedLonger(v.bytes); DelimitedIsPayload(v.bytes);
      case SUBMESSAGE(sub) =>
        var inner := EncodeFields(sub, v.vals).value;
        DelimitedLonger(inner);
        DelimitedIsPayload(inner);
    }
  }

  lemma FixedIsPayload(s: seq<byte>)
    ensures |s| == 4 ==> IsPayload(WT_32BIT, s)
    ensures |s| == 8 ==> IsPayload(WT_64BIT, s)
  {
  }

  /** `s` is one whole field: a key with the tag and the wire type, and a payload of that wire type. */
  ghost predicate WholeField(tag: nat, wireType: nat, s: seq<byte>) {
    var p := Decode32(s);
    p.Ok? && p.value / 8 == tag && p.value % 8 == wireType && IsPayload(wireType, p.rest)
  }

  lemma TagIsKey(tag: nat, wireType: nat, payload: seq<byte>)
    requires 1 <= tag < TAG_LIMIT && wireType < 8 && IsPayload(wireType, payload)
    ensures WholeField(tag, wireType, Tag(wireType, tag) + payload)
  {
    hide IsPayload, Decode32, Encode;
    Decode32Small(8 * tag + wireType, payload);
  }

  /** What is written for an item is one field, with the tag of the field and the wire type of its data. */
  lemma ItemIsWhole(f: Field, v: Value, s: seq<byte>)
    requires FieldOk(f) && TypedValue(f, v) && Written(EncodeItem(f, v), s)
    ensures WholeField(f.tag, WireType(f.ltype), s)
  {
    hide EncodeValue, IsPayload, WholeField, Tag;
    var payload := EncodeValue(f, v).value;
    ValueIsPayload(f, v, payload);
    TagIsKey(f.tag, WireType(f.ltype), payload);
  }

  /** An array of numbers is written as one length-delimited field, whatever is in it. */
  lemma PackedIsWhole(f: Field, vs: seq<Value>, s: seq<byte>)
    requires FieldOk(f) && f.ltype.Packable() && vs != []
    requires (forall v <- vs :: TypedValue(f, v)) && Written(EncodeArray(f, vs), s)
    ensures WholeField(f.tag, WT_STRING, s)
  {
    hide EncodeItems, IsPayload, WholeField, Tag, Delimited;
    var items := EncodeItems(f, vs, false).value;
    DelimitedLonger(items);
    DelimitedIsPayload(items);
    TagIsKey(f.tag, WT_STRING, Delimited(items));
  }

  // A reader without the field

  predicate Lacks(fields: seq<Field>, tag: nat) {
    forall f <- fields :: f.tag != tag
  }

  lemma WholeIsUnknown(fields: seq<Field>, tag: nat, wireType: nat, s: seq<byte>)
    requires WholeField(tag, wireType, s) && tag > 0 && Lacks(fields, tag)
    ensures IsUnknown(fields, s)
  {
    hide IsPayload, Decode32;
  }

  lemma {:induction false} ItemsSkipped(fields: seq<Field>, f: Field, vs: seq<Value>, s: seq<byte>, more: seq<byte>, p: Progress)
    requires FieldOk(f) && Lacks(fields, f.tag) && |p.vals| == |fields|
    requires (forall v <- vs :: TypedValue(f, v)) && Written(EncodeItems(f, vs, true), s)
    ensures TakeFields(fields, s + more, p) == TakeFields(fields, more, p)
    decreases |vs|
  {
    hide EncodeItem, TakeFields, IsUnknown, WholeField, Lacks, FieldOk;
    if vs == [] {
      assert s + more == more;
    } else {
      var n := |vs| - 1;
      var s1, t := EncodeItems(f, vs[..n], true).value, EncodeItem(f, vs[n]).value;
      ItemsSkipped(fields, f, vs[..n], s1, t + more, p);
      ItemIsWhole(f, vs[n], t);
      WholeIsUnknown(fields, f.tag, WireType(f.ltype), t) by { assert f.tag > 0 by { FieldTag(f); } }
      UnknownSkipped(fields, t, p, more);
      assert s + more == s1 + (t + more);
    }
  }

  lemma FieldTag(f: Field)
    requires FieldOk(f)
    ensures f.tag > 0
  {
  }

  /** All that is written for a field is skipped by a reader that lacks it. */
  lemma FieldSkipped(fields: seq<Field>, f: Field, fv: FieldVal, s: seq<byte>, more: seq<byte>, p: Progress)
    requires FieldOk(f) && Lacks(fields, f.tag) && |p.vals| == |fields|
    requires TypedField(f, fv) && Written(EncodeField(f, fv), s)
    ensures TakeFields(fields, s + more, p) == TakeFields(fields, more, p)
  {
    hide EncodeItem, EncodeItems, TakeFields, IsUnknown, WholeField, Lacks, IsDefault, TypedValue, Tag, Delimited;
    if s == [] {
      assert s + more == more;
    } else if f.htype == REPEATED && !f.ltype.Packable() {
      ItemsSkipped(fields, f, fv.vs, s, more, p);
    } else {
      if f.htype == REPEATED {
        PackedIsWhole(f, fv.vs, s);
        WholeIsUnknown(fields, f.tag, WT_STRING, s);
      } else {
        ItemIsWhole(f, if fv.One? then fv.v else fv.o.value, s);
        WholeIsUnknown(fields, f.tag, WireType(f.ltype), s);
      }
      UnknownSkipped(fields, s, p, more);
    }
  }

  // A reader with some of the fields

  /** The fields of a schema that an older one has too */
  function Kept(fields: seq<Field>, known: set<nat>): (kept: seq<Field>)
    ensures |kept| <= |fields| && forall f <- kept :: f in fields && f.tag in known
  {
    if fields == [] then []
    else if fields[0].tag in known then [fields[0]] + Kept(fields[1..], known) else Kept(fields[1..], known)
  }

  function KeptVals(fields: seq<Field>, vals: seq<FieldVal>, known: set<nat>): (kept: seq<FieldVal>)
    requires |fields| == |vals|
    ensures |kept| == |Kept(fields, known)|
  {
    if fields == [] then []
    else if fields[0].tag in known then [vals[0]] + KeptVals(fields[1..], vals[1..], known)
    else KeptVals(fields[1..], vals[1..], known)
  }

  /** From field j of the writer, which is field k of the reader or of one that comes after */
  lemma {:induction false} KnownBack(
    fields: seq<Field>, vals: seq<FieldVal>, known: set<nat>, gs: seq<Field>, gvals: seq<FieldVal>, k: nat,
    s: seq<byte>, rest: seq<byte>)
    requires (forall f <- fields :: FieldOk(f)) && Typed(fields, vals) && Written(EncodeFields(fields, vals), s)
    requires WellFormed(gs) && Storable(gs, gvals) && k <= |gs| && (forall g <- gs :: g.tag in known)
    requires gs[k..] == Kept(fields, known) && gvals[k..] == KeptVals(fields, vals, known)
    ensures TakeFields(gs, s + rest, Progress(Mixed(gs, gvals, k), SeenBefore(gs, k)))
            == TakeFields(gs, rest, Progress(gvals, SeenBefore(gs, |gs|)))
    decreases |fields|
  {
    hide TakeFields, EncodeField, Defaults, DefaultField, SeenBefore, WellFormed, Storable, FieldOk, TypedField;
    if fields == [] {
      assert s + rest == rest;
      assert k == |gs| && Mixed(gs, gvals, k) == gvals;
    } else {
      var s1, s2 := EncodeField(fields[0], vals[0]).value, EncodeFields(fields[1..], vals[1..]).value;
      assert s + rest == s1 + (s2 + rest);
      assert forall f <- fields[1..] :: f in fields;
      if fields[0].tag in known {
        assert gs[k] == fields[0] && gvals[k] == vals[0] by { assert gs[k] == gs[k..][0] && gvals[k] == gvals[k..][0]; }
        FieldBack(gs, gvals, k, s1, s2 + rest);
        assert gs[k + 1..] == gs[k..][1..] && gvals[k + 1..] == gvals[k..][1..];
        KnownBack(fields[1..], vals[1..], known, gs, gvals, k + 1, s2, rest);
      } else {
        FieldSkipped(gs, fields[0], vals[0], s1, s2 + rest, Progress(Mixed(gs, gvals, k), SeenBefore(gs, k)));
        KnownBack(fields[1..], vals[1..], known, gs, gvals, k, s2, rest);
      }
    }
  }

  /**
    * A reader that has only some of the fields of the writer's schema accepts the message, and has in each of its
    * fields what the writer put there.
    */
  lemma OlderReader(fields: seq<Field>, vals: seq<FieldVal>, known: set<nat>)
    requires WellFormed(fields) && Storable(fields, vals)
    ensures EncodeFields(fields, vals).Some?
    ensures var s := EncodeFields(fields, vals).value;
            |s| < TWO32 ==> DecodeMessage(Kept(fields, known), s) == Some(KeptVals(fields, vals, known))
  {
    hide EncodeFields, TakeFields, Storable, WellFormed, Kept, KeptVals, Defaults, SeenBefore, RequiredBefore;
    Encodable(fields, vals);
    var s := EncodeFields(fields, vals).value;
    if |s| < TWO32 {
      var gs, gvals := Kept(fields, known), KeptVals(fields, vals, known);
      KeptFits(fields, vals, known);
      assert gs[0..] == gs && gvals[0..] == gvals;
      KnownBack(fields, vals, known, gs, gvals, 0, s, []);
      assert s + [] == s && Mixed(gs, gvals, 0) == Defaults(gs);
      assert SeenBefore(gs, 0) == {} by { NoneSeen(gs); }
      ZeroTagEnds(gs, [], Progress(gvals, SeenBefore(gs, |gs|)));
      forall k: nat | k < RequiredBefore(gs, |gs|) && k < MAX_REQUIRED ensures k in SeenBefore(gs, |gs|) {
        AllSeen(gs, |gs|, k);
      }
    }
  }

  lemma NoneSeen(fields: seq<Field>)
    ensures SeenBefore(fields, 0) == {}
  {
  }

  /** Kept field k, with its value, is field j of the whole schema. */
  predicate StandsAt(fields: seq<Field>, vals: seq<FieldVal>, known: set<nat>, k: nat, j: nat)
    requires |fields| == |vals|
  {
    && k < |Kept(fields, known)| && j < |fields|
    && Kept(fields, known)[k] == fields[j] && KeptVals(fields, vals, known)[k] == vals[j]
  }

  lemma StandsLater(fields: seq<Field>, vals: seq<FieldVal>, known: set<nat>, k: nat, j: nat)
    requires fields != [] && |fields| == |vals| && StandsAt(fields[1..], vals[1..], known, k, j)
    ensures StandsAt(fields, vals, known, if fields[0].tag in known then k + 1 else k, j + 1)
  {
  }

  lemma KeptLess(fields: seq<Field>, known: set<nat>)
    ensures Kept([], known) == []
    ensures fields != [] ==>
              |Kept(fields, known)| == |Kept(fields[1..], known)| + if fields[0].tag in known then 1 else 0
  {
  }

  lemma FirstStands(fields: seq<Field>, vals: seq<FieldVal>, known: set<nat>)
    requires fields != [] && |fields| == |vals| && fields[0].tag in known
    ensures StandsAt(fields, vals, known, 0, 0)
  {
  }

  lemma {:induction false} KeptFrom(fields: seq<Field>, vals: seq<FieldVal>, known: set<nat>, k: nat) returns (j: nat)
    requires |fields| == |vals| && k < |Kept(fields, known)|
    ensures StandsAt(fields, vals, known, k, j)
    decreases |fields|
  {
    hide Kept, KeptVals, StandsAt;
    KeptLess(fields, known);
    j := 0;
    if fields[0].tag in known && k == 0 {
      FirstStands(fields, vals, known);
    } else {
      var before := if fields[0].tag in known then k - 1 else k;
      j := KeptFrom(fields[1..], vals[1..], known, before);
      StandsLater(fields, vals, known, before, j);
      j := j + 1;
    }
  }

  lemma {:induction false} KeptInOrder(fields: seq<Field>, vals: seq<FieldVal>, known: set<nat>, k: nat, l: nat)
    returns (i: nat, j: nat)
    requires |fields| == |vals| && k < l < |Kept(fields, known)|
    ensures i < j && StandsAt(fields, vals, known, k, i) && StandsAt(fields, vals, known, l, j)
    decreases |fields|
  {
    hide Kept, KeptVals, StandsAt;
    KeptLess(fields, known);
    var d := if fields[0].tag in known then 1 else 0;
    i := 0;
    if k < d {
      FirstStands(fields, vals, known);
      j := KeptFrom(fields[1..], vals[1..], known, l - 1);
    } else {
      i, j := KeptInOrder(fields[1..], vals[1..], known, k - d, l - d);
      StandsLater(fields, vals, known, k - d, i);
      i := i + 1;
    }
    StandsLater(fields, vals, known, l - d, j);
    j := j + 1;
  }

  lemma KeptFits(fields: seq<Field>, vals: seq<FieldVal>, known: set<nat>)
    requires WellFormed(fields) && Storable(fields, vals)
    ensures WellFormed(Kept(fields, known)) && Storable(Kept(fields, known), KeptVals(fields, vals, known))
    ensures forall f <- fields :: FieldOk(f)
  {
    hide Kept, KeptVals, FieldOk, TypedField, StorableField;
    var gs, gvals := Kept(fields, known), KeptVals(fields, vals, known);
    forall k: nat | k < |gs| ensures FieldOk(gs[k]) && TypedField(gs[k], gvals[k]) && StorableField(gs[k], gvals[k]) {
      var j := KeptFrom(fields, vals, known, k);
    }
    forall k: nat, l: nat | k < l < |gs|
      ensures gs[k].tag != gs[l].tag
      ensures SameUnion(gs[k], gs[l]) ==> gvals[k] == Opt(None) || gvals[l] == Opt(None)
    {
      var i, j := KeptInOrder(fields, vals, known, k, l);
    }
  }
}
