/** Inputs at which the promises of the nanopb format end: a full string, and more than 64 required fields. */
module PbLimits {
  import opened Bits
  import opened Bytes
  import opened Varint
  import opened PbSchema
  import opened PbEncodeSpec
  import opened PbDecodeSpec
  import opened PbRoundTrip
  import PbEncoder

  // A string that fills its field

  const ONE_STRING := [Field(1, STATIC, REQUIRED, STRING, 0, 0, 1, 0)]
  const FULL_STRING := [One(Raw([65]))]

  /** pb_encode writes a one-character string from a field of one byte, and pb_decode refuses it. */
  lemma FullStringRefused()
    ensures WellFormed(ONE_STRING) && Typed(ONE_STRING, FULL_STRING)
    ensures EncodeFields(ONE_STRING, FULL_STRING) == Some([10, 1, 65])
    ensures DecodeMessage(ONE_STRING, [10, 1, 65]).None?
  {
    var f := ONE_STRING[0];
    assert FieldOk(f) && TypedField(f, FULL_STRING[0]);
    OneByte(1);
    assert Delimited([65]) == Encode(1) + [65] == [1, 65];
    assert EncodeValue(f, Raw([65])) == Some([1, 65]);
    assert Tag(WT_STRING, 1) == [10] && [10] + [1, 65] == [10, 1, 65];
    assert EncodeItem(f, Raw([65])) == Some([10, 1, 65]);
    assert EncodeField(f, FULL_STRING[0]) == Some([10, 1, 65]);
    PbEncoder.OneField(f, FULL_STRING[0]);
    assert ONE_STRING == [f] && FULL_STRING == [FULL_STRING[0]];
    var bs: seq<byte> := [10, 1, 65];
    assert Decode32(bs) == Ok(10, [1, 65]);
    assert Find(ONE_STRING, 1) == Some(0);
    var rest: seq<byte> := [1, 65];
    assert Decode32(rest) == Ok(1, [65]);
    assert DecodeScalar(f, rest) == Fail;
    var p := Progress(Defaults(ONE_STRING), {});
    assert TakeField(ONE_STRING, bs, p) == Bad;
  }

  // Required fields that are not tracked

  /**
    * A message with only the first i fields of a list is accepted, the others holding their defaults, when these
    * have the first 64 required fields.
    */
  lemma FirstFieldsSuffice(fields: seq<Field>, vals: seq<FieldVal>, i: nat, s: seq<byte>)
    requires WellFormed(fields) && Storable(fields, vals) && i <= |fields| && MAX_REQUIRED <= RequiredBefore(fields, i)
    requires Typed(fields[..i], vals[..i]) && Written(EncodeFields(fields[..i], vals[..i]), s)
    ensures DecodeMessage(fields, s) == Some(Mixed(fields, vals, i))
  {
    hide TakeFields, EncodeFields, Storable, WellFormed, Defaults, RequiredBefore;
    FirstFieldsBack(fields, vals, i, s, []);
    assert s + [] == s;
    assert Mixed(fields, vals, 0) == Defaults(fields);
    ZeroTagEnds(fields, [], Progress(Mixed(fields, vals, i), SeenBefore(fields, i)));
    forall k: nat | k < RequiredBefore(fields, |fields|) && k < MAX_REQUIRED ensures k in SeenBefore(fields, i) {
      AllSeen(fields, i, k);
    }
  }

  lemma {:induction false} FirstFieldsBack(fields: seq<Field>, vals: seq<FieldVal>, i: nat, s: seq<byte>, rest: seq<byte>)
    requires WellFormed(fields) && Storable(fields, vals) && i <= |fields|
    requires Typed(fields[..i], vals[..i]) && Written(EncodeFields(fields[..i], vals[..i]), s)
    ensures TakeFields(fields, s + rest, Progress(Mixed(fields, vals, 0), {}))
            == TakeFields(fields, rest, Progress(Mixed(fields, vals, i), SeenBefore(fields, i)))
    decreases i
  {
    hide TakeFields, EncodeField, Mixed, SeenWith;
    if i == 0 {
      assert s + rest == rest;
    } else {
      PbEncoder.FieldsSnoc(fields, vals, i - 1);
      var s1 := EncodeFields(fields[..i - 1], vals[..i - 1]).value;
      var s2 := EncodeField(fields[i - 1], vals[i - 1]).value;
      FirstFieldsBack(fields, vals, i - 1, s1, s2 + rest);
      FieldBack(fields, vals, i - 1, s2, rest);
      assert s + rest == s1 + (s2 + rest);
    }
  }

  /** n required 32-bit numbers, with tags from 1 on */
  function Numbers(n: nat): (fields: seq<Field>)
    ensures |fields| == n
    ensures forall i | 0 <= i < n :: fields[i] == Field(i + 1, STATIC, REQUIRED, VARINT, 0, 0, 4, 0)
  {
    if n == 0 then [] else Numbers(n - 1) + [Field(n, STATIC, REQUIRED, VARINT, 0, 0, 4, 0)]
  }

  function Ones(n: nat): (vals: seq<FieldVal>)
    ensures |vals| == n && forall i | 0 <= i < n :: vals[i] == One(Int(1))
  {
    if n == 0 then [] else Ones(n - 1) + [One(Int(1))]
  }

  lemma {:induction false} NumbersRequired(fields: seq<Field>, n: nat)
    requires n <= |fields| && forall f <- fields :: f.htype == REQUIRED
    ensures RequiredBefore(fields, n) == n
  {
    if n > 0 {
      NumbersRequired(fields, n - 1);
    }
  }

  lemma NumbersFit(n: nat)
    requires n < 2000
    ensures WellFormed(Numbers(n)) && Storable(Numbers(n), Ones(n))
  {
    hide Numbers, Ones;
    forall i | 0 <= i < n ensures FieldOk(Numbers(n)[i]) && TypedField(Numbers(n)[i], Ones(n)[i])
                                  && StorableField(Numbers(n)[i], Ones(n)[i]) {
    }
  }

  lemma {:induction false} NumbersWritten(n: nat)
    requires n < 2000
    ensures Typed(Numbers(n), Ones(n))
    ensures EncodeFields(Numbers(n), Ones(n)).Some? && |EncodeFields(Numbers(n), Ones(n)).value| <= 3 * n
  {
    hide EncodeField, Storable, WellFormed, TypedField;
    NumbersFit(n);
    if n > 0 {
      NumbersWritten(n - 1);
      assert Numbers(n)[..n - 1] == Numbers(n - 1) && Ones(n)[..n - 1] == Ones(n - 1);
      assert Numbers(n)[..n] == Numbers(n) && Ones(n)[..n] == Ones(n);
      PbEncoder.FieldsSnoc(Numbers(n), Ones(n), n - 1);
      OneWritten(Numbers(n)[n - 1], n);
    }
  }

  lemma OneWritten(f: Field, tag: nat)
    requires f == Field(tag, STATIC, REQUIRED, VARINT, 0, 0, 4, 0) && tag < 2000
    ensures TypedField(f, One(Int(1))) && EncodeField(f, One(Int(1))).Some?
    ensures |EncodeField(f, One(Int(1))).value| <= 3
  {
    hide Encode;
    SevenBits();
    Pow2Step7(7);
    EncodeLength(8 * tag, 2);
    OneByte(1);
    assert EncodeValue(f, Int(1)) == Some([1]);
    assert EncodeItem(f, Int(1)) == Some(Tag(WT_VARINT, tag) + [1]);
  }

  /** A message with only the first m of n required fields is accepted once m is 64: nothing notices the others missing. */
  lemma RequiredMissed(m: nat, n: nat)
    requires MAX_REQUIRED <= m <= n < 2000
    ensures RequiredBefore(Numbers(n), n) == n
    ensures Typed(Numbers(n)[..m], Ones(n)[..m])
    ensures var s := EncodeFields(Numbers(n)[..m], Ones(n)[..m]);
            s.Some? && DecodeMessage(Numbers(n), s.value) == Some(Mixed(Numbers(n), Ones(n), m))
    ensures m < n ==> Mixed(Numbers(n), Ones(n), m)[m] == One(Int(0))
  {
    hide EncodeFields, DecodeMessage, Storable, WellFormed, Numbers, Ones, RequiredBefore;
    var fields, vals := Numbers(n), Ones(n);
    NumbersFit(n);
    NumbersWritten(m);
    NumbersRequired(fields, m);
    NumbersRequired(fields, n);
    assert fields[..m] == Numbers(m) && vals[..m] == Ones(m);
    FirstFieldsSuffice(fields, vals, m, EncodeFields(fields[..m], vals[..m]).value);
    if m < n {
      assert fields[m] == Field(m + 1, STATIC, REQUIRED, VARINT, 0, 0, 4, 0);
      assert DefaultField(fields[m]) == One(Int(0));
    }
  }
}
