/**
  * Repeated fields in every form the wire format allows: the entries of an array may come one by one, packed, or in
  * any mix of both, and each adds to what is there until the array is full.
  */
module PbRepeated {
  import opened Bytes
  import opened Varint
  import opened PbSchema
  import opened PbEncodeSpec
  import opened PbDecodeSpec
  import opened PbRoundTrip

  /** Entries of one array in a row, packed into one field or each a field of its own */
  datatype Run = Run(packed: bool, vs: seq<Value>)

  predicate RunOk(f: Field, run: Run) {
    (run.packed ==> f.ltype.Packable()) && forall v <- run.vs :: TypedValue(f, v) && StorableValue(f, v)
  }

  function EncodeRun(f: Field, run: Run): Option<seq<byte>>
    requires RunOk(f, run)
  {
    if !run.packed then EncodeItems(f, run.vs, true)
    else
      match EncodeItems(f, run.vs, false)
      case None => None
      case Some(s) => Some(Tag(WT_STRING, f.tag) + Delimited(s))
  }

  function EncodeRuns(f: Field, runs: seq<Run>): Option<seq<byte>>
    requires forall run <- runs :: RunOk(f, run)
  {
    if runs == [] then Some([])
    else
      match EncodeRun(f, runs[0])
      case None => None
      case Some(s) =>
        (match EncodeRuns(f, runs[1..])
         case None => None
         case Some(t) => Some(s + t))
  }

  function Entries(runs: seq<Run>): seq<Value> {
    if runs == [] then [] else runs[0].vs + Entries(runs[1..])
  }

  lemma {:induction false} ItemsSplit(f: Field, vs: seq<Value>, k: nat, tagged: bool)
    requires (forall v <- vs :: TypedValue(f, v)) && k <= |vs| && EncodeItems(f, vs, tagged).Some?
    ensures EncodeItems(f, vs[..k], tagged).Some? && EncodeItems(f, vs[..k], tagged).value <= EncodeItems(f, vs, tagged).value
    ensures k < |vs| ==>
              var e := if tagged then EncodeItem(f, vs[k]) else EncodeValue(f, vs[k]);
              e.Some? && EncodeItems(f, vs[..k], tagged).value + e.value <= EncodeItems(f, vs, tagged).value
    decreases |vs|
  {
    hide EncodeItem, EncodeValue;
    if k < |vs| {
      var n := |vs| - 1;
      ItemsSplit(f, vs[..n], k, tagged);
      assert vs[..n][..k] == vs[..k];
      if k < n {
        assert vs[..n][k] == vs[k];
      }
    } else {
      assert vs[..k] == vs;
    }
  }

  /** A tag and a payload that is refused end the message. */
  lemma TaggedRefused(fields: seq<Field>, i: nat, wireType: nat, payload: seq<byte>, p: Progress)
    requires WellFormed(fields) && i < |fields| && |p.vals| == |fields| && wireType < 8
    requires !DecodeField(fields[i], wireType, payload, p.vals[i]).Ok?
    ensures TakeFields(fields, Tag(wireType, fields[i].tag) + payload, p) == None
  {
    hide DecodeField, Decode32, Encode, RequiredBefore, Find, Skip, Store, Defaults;
    assert FieldOk(fields[i]);
    var key := 8 * fields[i].tag + wireType;
    Decode32Small(key, payload);
    FindBack(fields, i);
    assert Encode(key) + payload != [];
  }

  /** An entry with a tag of its own is refused when the array is full. */
  lemma FullArrayRefuses(fields: seq<Field>, i: nat, v: Value, rest: seq<byte>, p: Progress)
    requires WellFormed(fields) && i < |fields| && |p.vals| == |fields| && fields[i].htype == REPEATED
    requires p.vals[i].Many? && |p.vals[i].vs| == fields[i].arraySize
    requires TypedValue(fields[i], v) && EncodeItem(fields[i], v).Some?
    ensures TakeFields(fields, EncodeItem(fields[i], v).value + rest, p) == None
  {
    hide TakeFields, Tag, EncodeValue, DecodeField, TypedValue, WellFormed;
    var f := fields[i];
    var payload := EncodeValue(f, v).value;
    FullRefused(f, WireType(f.ltype), payload + rest, p.vals[i].vs);
    TaggedRefused(fields, i, WireType(f.ltype), payload + rest, p);
    assert EncodeItem(f, v).value + rest == Tag(WireType(f.ltype), f.tag) + (payload + rest);
  }

  /** An entry too many, with a tag of its own */
  lemma TaggedOverflow(fields: seq<Field>, i: nat, us: seq<Value>, vs: seq<Value>, s: seq<byte>, rest: seq<byte>, p: Progress)
    requires WellFormed(fields) && i < |fields| && |p.vals| == |fields|
    requires var f := fields[i]; f.htype == REPEATED && |us| <= f.arraySize < |us| + |vs|
    requires p.vals[i] == Many(us)
    requires forall v <- vs :: TypedValue(fields[i], v) && StorableValue(fields[i], v)
    requires Written(EncodeItems(fields[i], vs, true), s)
    ensures TakeFields(fields, s + rest, p) == None
  {
    hide TakeFields, EncodeItem, EncodeItems, StorableValue, TypedValue, WellFormed;
    var f := fields[i];
    var k := f.arraySize - |us|;
    ItemsSplit(f, vs, k, true);
    var s1, t := EncodeItems(f, vs[..k], true).value, EncodeItem(f, vs[k]).value;
    var more := s[|s1 + t|..] + rest;
    assert s + rest == s1 + (t + more) by { PrefixThen(s, s1, t, rest); }
    assert Written(EncodeItems(f, vs[..k], true), s1);
    var p1 := p.(vals := Store(fields, p.vals, i, Many(us + vs[..k])));
    FirstEntriesBack(fields, i, us, vs[..k], s1, t + more, p);
    FullArrayRefuses(fields, i, vs[k], more, p1);
  }

  lemma PrefixThen(s: seq<byte>, a: seq<byte>, b: seq<byte>, rest: seq<byte>)
    requires a + b <= s
    ensures s + rest == a + (b + (s[|a + b|..] + rest))
  {
  }

  lemma FirstEntriesBack(
    fields: seq<Field>, i: nat, us: seq<Value>, vs: seq<Value>, s: seq<byte>, rest: seq<byte>, p: Progress)
    requires WellFormed(fields) && i < |fields| && |p.vals| == |fields|
    requires var f := fields[i]; f.htype == REPEATED && |us| + |vs| == f.arraySize
    requires p.vals[i] == Many(us)
    requires forall v <- vs :: TypedValue(fields[i], v) && StorableValue(fields[i], v)
    requires Written(EncodeItems(fields[i], vs, true), s)
    ensures var p1 := p.(vals := Store(fields, p.vals, i, Many(us + vs)));
            && TakeFields(fields, s + rest, p) == TakeFields(fields, rest, p1)
            && p1.vals[i].Many? && |p1.vals[i].vs| == fields[i].arraySize
  {
    hide TakeFields, EncodeItems, StorableValue, TypedValue, WellFormed;
    TaggedItemsBack(fields, i, us, vs, s, rest, p);
  }

  lemma FullRefused(f: Field, wireType: nat, bs: seq<byte>, vs: seq<Value>)
    requires f.htype == REPEATED && (f.ltype.Packable() ==> wireType != WT_STRING) && |vs| == f.arraySize
    ensures DecodeField(f, wireType, bs, Many(vs)) == Fail
  {
  }

  /** An entry too many in a packed run */
  lemma PackedOverflow(f: Field, us: seq<Value>, vs: seq<Value>, s: seq<byte>)
    requires FieldOk(f) && f.ltype.Packable() && |us| <= f.arraySize < |us| + |vs|
    requires forall v <- vs :: TypedValue(f, v) && StorableValue(f, v)
    requires EncodeItems(f, vs, false) == Some(s)
    ensures DecodePacked(f, s, us) == None
  {
    hide EncodeValue, EncodeItems, DecodeScalar;
    var k := f.arraySize - |us|;
    ItemsSplit(f, vs, k, false);
    var s1, t := EncodeItems(f, vs[..k], false).value, EncodeValue(f, vs[k]).value;
    ScalarNotEmpty(f, vs[k]);
    PackedBack(f, us, vs[..k], s1, s[|s1|..]);
    assert s == s1 + s[|s1|..];
  }

  /** Bytes after the entries of a packed run that are no entry */
  lemma PackedGarbage(f: Field, us: seq<Value>, vs: seq<Value>, s: seq<byte>, garbage: seq<byte>)
    requires FieldOk(f) && f.ltype.Packable() && |us| + |vs| <= f.arraySize
    requires forall v <- vs :: TypedValue(f, v) && StorableValue(f, v)
    requires EncodeItems(f, vs, false) == Some(s) && garbage != [] && !DecodeScalar(f, garbage).Ok?
    ensures DecodePacked(f, s + garbage, us) == None
  {
    hide DecodeScalar, EncodeItems;
    PackedBack(f, us, vs, s, garbage);
  }

  lemma ScalarNotEmpty(f: Field, v: Value)
    requires FieldOk(f) && f.ltype.Packable() && TypedValue(f, v) && EncodeValue(f, v).Some?
    ensures EncodeValue(f, v).value != []
  {
  }

  /** One run is added to the array exactly when it fits, and otherwise refused. */
  lemma RunBack(fields: seq<Field>, i: nat, us: seq<Value>, run: Run, s: seq<byte>, rest: seq<byte>, p: Progress)
    requires WellFormed(fields) && i < |fields| && |p.vals| == |fields|
    requires fields[i].htype == REPEATED && |us| <= fields[i].arraySize && p.vals[i] == Many(us)
    requires RunOk(fields[i], run) && Written(EncodeRun(fields[i], run), s)
    ensures TakeFields(fields, s + rest, p)
            == if |us| + |run.vs| <= fields[i].arraySize
               then TakeFields(fields, rest, p.(vals := Store(fields, p.vals, i, Many(us + run.vs))))
               else None
  {
    hide TakeFields, Tag, EncodeItems, Store, DecodeField, StorableValue, TypedValue, Delimited, Encode;
    var f := fields[i];
    assert FieldOk(f);
    if !run.packed {
      if |us| + |run.vs| <= f.arraySize {
        TaggedItemsBack(fields, i, us, run.vs, s, rest, p);
      } else {
        TaggedOverflow(fields, i, us, run.vs, s, rest, p);
      }
    } else {
      var items := EncodeItems(f, run.vs, false).value;
      DelimitedLonger(items);
      assert s + rest == Tag(WT_STRING, f.tag) + (Delimited(items) + rest) == Tag(WT_STRING, f.tag) + Delimited(items) + rest;
      if |us| + |run.vs| <= f.arraySize {
        PackedFieldBack(f, us, run.vs, items, rest);
        TakeTagged(fields, i, WT_STRING, Delimited(items), rest, p, Many(us + run.vs));
      } else {
        PackedOverflow(f, us, run.vs, items);
        PackedRefused(f, us, items, rest);
        TaggedRefused(fields, i, WT_STRING, Delimited(items) + rest, p);
      }
    }
  }

  lemma PackedRefused(f: Field, us: seq<Value>, items: seq<byte>, rest: seq<byte>)
    requires f.htype == REPEATED && f.ltype.Packable() && |items| < TWO32 && DecodePacked(f, items, us) == None
    ensures DecodeField(f, WT_STRING, Delimited(items) + rest, Many(us)) == Fail
  {
    hide DecodePacked, TakeDelimited, Delimited;
    TakeDelimitedBack(items, rest);
  }

  /**
    * Any mix of packed and single entries: read into a struct whose array holds `us`, all are added in order when they
    * fit, and the message is refused when there is one too many.
    */
  lemma {:induction false} RunsBack(
    fields: seq<Field>, i: nat, us: seq<Value>, runs: seq<Run>, s: seq<byte>, rest: seq<byte>, p: Progress)
    requires WellFormed(fields) && i < |fields| && |p.vals| == |fields|
    requires fields[i].htype == REPEATED && |us| <= fields[i].arraySize && p.vals[i] == Many(us)
    requires (forall run <- runs :: RunOk(fields[i], run)) && Written(EncodeRuns(fields[i], runs), s)
    ensures TakeFields(fields, s + rest, p)
            == if |us| + |Entries(runs)| <= fields[i].arraySize
               then TakeFields(fields, rest, p.(vals := Store(fields, p.vals, i, Many(us + Entries(runs)))))
               else None
    decreases |runs|
  {
    hide TakeFields, EncodeRun, Store, RunOk, WellFormed;
    var f := fields[i];
    if runs == [] {
      assert s + rest == rest && us + [] == us;
      StoreSame(fields, p.vals, i);
    } else {
      var s1, s2 := EncodeRun(f, runs[0]).value, EncodeRuns(f, runs[1..]).value;
      var vs := runs[0].vs;
      RunBack(fields, i, us, runs[0], s1, s2 + rest, p);
      assert s + rest == s1 + (s2 + rest);
      if |us| + |vs| <= f.arraySize {
        var p1 := p.(vals := Store(fields, p.vals, i, Many(us + vs)));
        StoreTwice(fields, p.vals, i, Many(us + vs), Many(us + Entries(runs)));
        RunsBack(fields, i, us + vs, runs[1..], s2, rest, p1);
        assert us + vs + Entries(runs[1..]) == us + Entries(runs);
      }
    }
  }
}
