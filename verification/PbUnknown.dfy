/** Unknown fields are transparent: fields that the schema does not name can stand anywhere in a message. */
module PbUnknown {
  import Bits
  import opened Bytes
  import opened Varint
  import opened PbSchema
  import opened PbEncodeSpec
  import opened PbDecodeSpec
  import opened PbRoundTrip

  // What follows the bytes that are read does not matter

  /** The same item, with more bytes left over */
  function Then<T>(p: Parse<T>, more: seq<byte>): Parse<T> {
    match p
    case Ok(v, rest) => Ok(v, rest + more)
    case Eof => Eof
    case Fail => Fail
  }

  lemma {:induction false} Decode32FromThen(bs: seq<byte>, bitpos: nat, result: nat, more: seq<byte>)
    requires Decode32From(bs, bitpos, result).Ok?
    ensures Decode32From(bs + more, bitpos, result) == Then(Decode32From(bs, bitpos, result), more)
    decreases |bs|
  {
    hide Bits.Or, Bits.Shl;
    assert (bs + more)[1..] == bs[1..] + more;
    if bs[0] >= 0x80 {
      var result' := if bitpos >= 32 then result else Bits.Or(result, Bits.Shl(bs[0] % 0x80, bitpos, 32));
      Decode32FromThen(bs[1..], (bitpos + 7) % 0x100, result', more);
    }
  }

  lemma Decode32Then(bs: seq<byte>, more: seq<byte>)
    requires Decode32(bs).Ok?
    ensures Decode32(bs + more) == Then(Decode32(bs), more)
  {
    hide Decode32From;
    assert (bs + more)[1..] == bs[1..] + more;
    if bs[0] >= 0x80 {
      Decode32FromThen(bs[1..], 7, bs[0] % 0x80, more);
    }
  }

  lemma {:induction false} DecodeThen(bs: seq<byte>, bitpos: nat, result: nat, more: seq<byte>)
    requires DecodeFrom(bs, bitpos, result).Ok?
    ensures DecodeFrom(bs + more, bitpos, result) == Then(DecodeFrom(bs, bitpos, result), more)
    decreases |bs|
  {
    hide Bits.Or, Bits.Shl;
    assert (bs + more)[1..] == bs[1..] + more;
    if bs[0] >= 0x80 {
      DecodeThen(bs[1..], bitpos + 7, Bits.Or(result, Bits.Shl(bs[0] % 0x80, bitpos, 64)), more);
    }
  }

  lemma TakeThen(bs: seq<byte>, n: nat, more: seq<byte>)
    requires Take(bs, n).Ok?
    ensures Take(bs + more, n) == Then(Take(bs, n), more)
  {
    assert (bs + more)[n..] == bs[n..] + more && (bs + more)[..n] == bs[..n];
  }

  lemma TakeDelimitedThen(bs: seq<byte>, more: seq<byte>)
    requires TakeDelimited(bs).Ok?
    ensures TakeDelimited(bs + more) == Then(TakeDelimited(bs), more)
  {
    hide Decode32;
    Decode32Then(bs, more);
    TakeThen(Decode32(bs).rest, Decode32(bs).value, more);
  }

  lemma ScalarThen(f: Field, bs: seq<byte>, more: seq<byte>)
    requires DecodeScalar(f, bs).Ok?
    ensures DecodeScalar(f, bs + more) == Then(DecodeScalar(f, bs), more)
  {
    hide DecodeFrom, Decode32, FromLittleEndian, VarintItem, UvarintItem, SvarintItem, Zeros, CString, Take;
    match f.ltype {
      case VARINT => DecodeThen(bs, 0, 0, more); DecodeBound(bs, 0, 0);
      case UVARINT => DecodeThen(bs, 0, 0, more);
      case SVARINT => DecodeThen(bs, 0, 0, more); DecodeBound(bs, 0, 0);
      case FIXED32 => TakeThen(bs, 4, more);
      case FIXED64 => TakeThen(bs, 8, more);
      case BYTES => DelimitedThen(bs, more);
      case STRING => DelimitedThen(bs, more);
      case FIXED_LENGTH_BYTES => DelimitedThen(bs, more);
    }
  }

  lemma DelimitedThen(bs: seq<byte>, more: seq<byte>)
    requires Decode32(bs).Ok?
    ensures Decode32(bs + more) == Then(Decode32(bs), more)
    ensures var p := Decode32(bs);
            Take(p.rest, p.value).Ok? ==> Take(p.rest + more, p.value) == Then(Take(p.rest, p.value), more)
  {
    hide Decode32;
    Decode32Then(bs, more);
    if Take(Decode32(bs).rest, Decode32(bs).value).Ok? {
      TakeThen(Decode32(bs).rest, Decode32(bs).value, more);
    }
  }

  lemma {:induction false} SkipVarintThen(bs: seq<byte>, more: seq<byte>)
    requires SkipVarint(bs).Ok?
    ensures SkipVarint(bs + more) == Then(SkipVarint(bs), more)
    decreases |bs|
  {
    assert (bs + more)[1..] == bs[1..] + more;
    if bs[0] >= 0x80 {
      SkipVarintThen(bs[1..], more);
    }
  }

  lemma SkipThen(bs: seq<byte>, wireType: nat, more: seq<byte>)
    requires Skip(bs, wireType).Ok?
    ensures Skip(bs + more, wireType) == Then(Skip(bs, wireType), more)
  {
    hide SkipVarint, Take, TakeDelimited;
    if wireType == WT_VARINT {
      SkipVarintThen(bs, more);
    } else if wireType == WT_64BIT {
      TakeThen(bs, 8, more);
    } else if wireType == WT_STRING {
      TakeDelimitedThen(bs, more);
    } else {
      TakeThen(bs, 4, more);
    }
  }

  lemma ItemThen(f: Field, bs: seq<byte>, cur: Value, more: seq<byte>)
    requires DecodeItem(f, bs, cur).Ok?
    ensures DecodeItem(f, bs + more, cur) == Then(DecodeItem(f, bs, cur), more)
  {
    hide TakeDelimited, DecodeNoinit, DecodeScalar, Defaults;
    if f.ltype.SUBMESSAGE? {
      TakeDelimitedThen(bs, more);
    } else {
      ScalarThen(f, bs, more);
    }
  }

  lemma FieldThen(f: Field, wireType: nat, bs: seq<byte>, fv: FieldVal, more: seq<byte>)
    requires DecodeField(f, wireType, bs, fv).Ok?
    ensures DecodeField(f, wireType, bs + more, fv) == Then(DecodeField(f, wireType, bs, fv), more)
  {
    hide TakeDelimited, DecodeItem, DecodePacked, DefaultValue;
    if f.htype == REPEATED {
      if wireType == WT_STRING && f.ltype.Packable() {
        TakeDelimitedThen(bs, more);
      } else {
        ItemThen(f, bs, DefaultValue(f), more);
      }
    } else {
      ItemThen(f, bs, if f.htype.ONEOF? then DefaultValue(f) else Current(f, fv), more);
    }
  }

  lemma TurnThen(fields: seq<Field>, bs: seq<byte>, p: Progress, more: seq<byte>)
    requires |p.vals| == |fields| && TakeField(fields, bs, p).Took?
    ensures TakeField(fields, bs + more, p) == TakeField(fields, bs, p).(rest := TakeField(fields, bs, p).rest + more)
  {
    hide Decode32, Find, Skip, DecodeField, Store, RequiredBefore;
    Decode32Then(bs, more);
    Decode32Shrinks(bs);
    var key, rest := Decode32(bs).value, Decode32(bs).rest;
    match Find(fields, key / 8) {
      case None => SkipThen(rest, key % 8, more);
      case Some(i) => FieldThen(fields[i], key % 8, rest, p.vals[i], more);
    }
  }

  // Whole fields

  /** `a` is a run of whole fields, which take the struct from p to q. */
  predicate Consumes(fields: seq<Field>, a: seq<byte>, p: Progress, q: Progress)
    requires |p.vals| == |fields|
    decreases |a|
  {
    if a == [] then p == q
    else
      var t := TakeField(fields, a, p);
      t.Took? && Consumes(fields, t.rest, t.p, q)
  }

  lemma {:induction false} TakeFieldsThen(fields: seq<Field>, a: seq<byte>, p: Progress, q: Progress, more: seq<byte>)
    requires |p.vals| == |fields| == |q.vals| && Consumes(fields, a, p, q)
    ensures TakeFields(fields, a + more, p) == TakeFields(fields, more, q)
    decreases |a|
  {
    hide TakeField;
    if a == [] {
      assert a + more == more;
    } else {
      var t := TakeField(fields, a, p);
      TurnThen(fields, a, p, more);
      TakeFieldsThen(fields, t.rest, t.p, q, more);
    }
  }

  // Unknown fields, and what skipping takes off the stream

  /** What may follow a key of the given wire type */
  ghost predicate IsPayload(wireType: nat, s: seq<byte>) {
    if wireType == WT_VARINT then s != [] && s[|s| - 1] < 0x80 && forall i | 0 <= i < |s| - 1 :: s[i] >= 0x80
    else if wireType == WT_64BIT then |s| == 8
    else if wireType == WT_STRING then exists n | 0 <= n <= |s| :: Decode32(s[..n]) == Ok(|s| - n, [])
    else if wireType == WT_32BIT then |s| == 4
    else false
  }

  /** A whole field that the schema does not name: a key, in any encoding, and a payload of its wire type */
  ghost predicate IsUnknown(fields: seq<Field>, u: seq<byte>) {
    match Decode32(u)
    case Ok(key, payload) =>
      && key != 0 && (key / 8 != 0 || fields != [])
      && (forall f <- fields :: f.tag != key / 8)
      && IsPayload(key % 8, payload)
    case _ => false
  }

  lemma {:induction false} SkipVarintExact(bs: seq<byte>, s: seq<byte>, rest: seq<byte>)
    requires bs == s + rest
    ensures IsPayload(WT_VARINT, s) <==> SkipVarint(bs) == Ok((), rest) && s != []
    decreases |s|
  {
    if s != [] {
      assert bs[1..] == s[1..] + rest;
      if bs[0] >= 0x80 && |s| > 1 {
        SkipVarintExact(bs[1..], s[1..], rest);
        assert forall i | 0 <= i < |s| - 2 :: s[1..][i] == s[i + 1];
        assert IsPayload(WT_VARINT, s) <==> IsPayload(WT_VARINT, s[1..]) by {
          if IsPayload(WT_VARINT, s[1..]) {
            forall i | 0 <= i < |s| - 1 ensures s[i] >= 0x80 {
              assert i > 0 ==> s[i] == s[1..][i - 1];
            }
          }
        }
      } else if bs[0] >= 0x80 {
        if SkipVarint(rest).Ok? {
          SkipShrinks(rest, WT_VARINT);
        }
      } else if |s| > 1 {
        assert s[0] < 0x80;
      }
    }
  }

  /** The key or length at the front of a stream, on its own */
  lemma {:induction false} Decode32FromFront(bs: seq<byte>, bitpos: nat, result: nat) returns (n: nat)
    requires Decode32From(bs, bitpos, result).Ok?
    ensures n <= |bs| && bs[n..] == Decode32From(bs, bitpos, result).rest
    ensures Decode32From(bs[..n], bitpos, result) == Ok(Decode32From(bs, bitpos, result).value, [])
    decreases |bs|
  {
    hide Bits.Or, Bits.Shl;
    if bs[0] >= 0x80 {
      var result' := if bitpos >= 32 then result else Bits.Or(result, Bits.Shl(bs[0] % 0x80, bitpos, 32));
      var m := Decode32FromFront(bs[1..], (bitpos + 7) % 0x100, result');
      n := m + 1;
      assert bs[..n][1..] == bs[1..][..m];
    } else {
      n := 1;
    }
  }

  lemma Decode32Front(bs: seq<byte>) returns (n: nat)
    requires Decode32(bs).Ok?
    ensures n <= |bs| && bs[n..] == Decode32(bs).rest
    ensures Decode32(bs[..n]) == Ok(Decode32(bs).value, [])
  {
    hide Decode32From;
    if bs[0] >= 0x80 {
      var m := Decode32FromFront(bs[1..], 7, bs[0] % 0x80);
      n := m + 1;
      assert bs[..n][1..] == bs[1..][..m];
    } else {
      n := 1;
    }
  }

  lemma SkipStringExact(bs: seq<byte>, s: seq<byte>, rest: seq<byte>)
    requires bs == s + rest
    ensures IsPayload(WT_STRING, s) <==> Skip(bs, WT_STRING) == Ok((), rest)
  {
    hide Decode32;
    if IsPayload(WT_STRING, s) {
      var n :| 0 <= n <= |s| && Decode32(s[..n]) == Ok(|s| - n, []);
      Decode32Then(s[..n], s[n..] + rest);
      assert s[..n] + (s[n..] + rest) == bs;
      assert (s[n..] + rest)[|s| - n..] == rest;
    }
    if Skip(bs, WT_STRING) == Ok((), rest) {
      var n := Decode32Front(bs);
      var size := Decode32(bs).value;
      assert bs[n..][size..] == rest;
      assert |s| == n + size && s[..n] == bs[..n];
    }
  }

  /** Skipping takes off the stream exactly a payload of the wire type, and fails when there is none. */
  lemma SkipExact(wireType: nat, bs: seq<byte>, s: seq<byte>, rest: seq<byte>)
    requires bs == s + rest
    ensures IsPayload(wireType, s) <==> Skip(bs, wireType) == Ok((), rest)
  {
    hide SkipVarint;
    if wireType == WT_VARINT {
      SkipVarintExact(bs, s, rest);
      if s == [] && SkipVarint(bs).Ok? {
        SkipShrinks(bs, WT_VARINT);
      }
    } else if wireType == WT_STRING {
      SkipStringExact(bs, s, rest);
    } else if wireType == WT_64BIT || wireType == WT_32BIT {
      var n := if wireType == WT_64BIT then 8 else 4;
      if |s| == n {
        assert bs[n..] == rest;
      }
    }
  }

  lemma UnknownSkipped(fields: seq<Field>, u: seq<byte>, p: Progress, more: seq<byte>)
    requires IsUnknown(fields, u) && |p.vals| == |fields|
    ensures TakeFields(fields, u + more, p) == TakeFields(fields, more, p)
  {
    hide Decode32, Skip, IsPayload, DecodeField, Store;
    var key, payload := Decode32(u).value, Decode32(u).rest;
    Decode32Then(u, more);
    SkipExact(key % 8, payload + more, payload, more);
    assert Find(fields, key / 8).None?;
    assert u != [] by { Decode32Shrinks(u); }
    assert TakeField(fields, u + more, p) == Took(p, more);
  }

  /**
    * An unknown field between two fields of a message, in front or at the end, changes nothing: neither
    * whether the message is accepted nor the struct it fills in. This holds for whatever the struct held
    * before, and so at every depth of nesting.
    */
  lemma UnknownTransparent(fields: seq<Field>, vals: seq<FieldVal>, a: seq<byte>, u: seq<byte>, b: seq<byte>, q: Progress)
    requires |vals| == |fields| == |q.vals|
    requires Consumes(fields, a, Progress(vals, {}), q) && IsUnknown(fields, u)
    ensures DecodeNoinit(fields, a + u + b, vals) == DecodeNoinit(fields, a + b, vals)
  {
    hide TakeFields, Consumes, IsUnknown;
    TakeFieldsThen(fields, a, Progress(vals, {}), q, u + b);
    TakeFieldsThen(fields, a, Progress(vals, {}), q, b);
    UnknownSkipped(fields, u, q, b);
    assert a + u + b == a + (u + b);
  }

  /** The same inside a submessage, whose length grows with it, be it an entry of an array or a field of its own */
  lemma NestedUnknownTransparent(f: Field, cur: Value, a: seq<byte>, u: seq<byte>, b: seq<byte>, q: Progress, rest: seq<byte>)
    requires f.ltype.SUBMESSAGE? && |f.ltype.fields| == |q.vals|
    requires Consumes(f.ltype.fields, a, Progress(SubmessageStart(f, cur), {}), q) && IsUnknown(f.ltype.fields, u)
    requires |a + u + b| < TWO32
    ensures DecodeItem(f, Delimited(a + u + b) + rest, cur) == DecodeItem(f, Delimited(a + b) + rest, cur)
  {
    hide DecodeNoinit, Consumes, IsUnknown, Delimited, TakeDelimited, SubmessageStart;
    TakeDelimitedBack(a + u + b, rest);
    TakeDelimitedBack(a + b, rest);
    UnknownTransparent(f.ltype.fields, SubmessageStart(f, cur), a, u, b, q);
  }
}
