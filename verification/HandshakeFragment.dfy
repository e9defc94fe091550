/** Handshake fragments on the wire (RFC 6347, section 4.2.2): header layout, parsing and serialisation. */
module HandshakeFragment {
  import opened Bits
  import opened Bytes

  /** DTLS1_HM_HEADER_LENGTH */
  const HM_HEADER_LENGTH: nat := 12

  /** hm_header_st */
  datatype Header = Header(typ: byte, msgLen: nat, seqNo: nat, fragOff: nat, fragLen: nat) {
    /** Each field fits its width on the wire. */
    predicate Fits() {
      msgLen < 0x100_0000 && seqNo < 0x1_0000 && fragOff < 0x100_0000 && fragLen < 0x100_0000
    }
  }

  datatype Parsed = Malformed | Parsed(hdr: Header, body: seq<byte>, rest: seq<byte>)

  /** dtls1_parse_fragment: one fragment from the front of `cbs`. */
  function ParseFragment(cbs: seq<byte>): (p: Parsed)
    ensures p.Parsed? ==> p.hdr.Fits() && |p.body| == p.hdr.fragLen && |p.rest| < |cbs|
  {
    if |cbs| < HM_HEADER_LENGTH then Malformed
    else
      Widths();
      var hdr := Header(cbs[0], BigEndian(cbs[1..4]), BigEndian(cbs[4..6]), BigEndian(cbs[6..9]), BigEndian(cbs[9..12]));
      var tail := cbs[12..];
      if |tail| < hdr.fragLen then Malformed
      else Parsed(hdr, tail[..hdr.fragLen], tail[hdr.fragLen..])
  }

  /** The fragment as the CBB calls of seal_next_message lay it out. */
  function Serialize(hdr: Header, body: seq<byte>): (s: seq<byte>)
    ensures |s| == HM_HEADER_LENGTH + |body|
  {
    [hdr.typ] + ToBigEndian(hdr.msgLen, 3) + ToBigEndian(hdr.seqNo, 2)
    + ToBigEndian(hdr.fragOff, 3) + ToBigEndian(hdr.fragLen, 3) + body
  }

  lemma Widths()
    ensures Pow2(16) == 0x1_0000 && Pow2(24) == 0x100_0000
  {
    Pow2Step8(0);
    Pow2Step8(8);
    Pow2Step8(16);
  }

  lemma FieldRoundTrip(n: nat)
    ensures n < 0x1_0000 ==> BigEndian(ToBigEndian(n, 2)) == n
    ensures n < 0x100_0000 ==> BigEndian(ToBigEndian(n, 3)) == n
  {
    Widths();
    if n < 0x1_0000 {
      BigEndianRoundTrip(n, 2);
    }
    if n < 0x100_0000 {
      BigEndianRoundTrip(n, 3);
    }
  }

  /** Where each header field sits. */
  lemma FieldsAt(hdr: Header, body: seq<byte>)
    ensures var s := Serialize(hdr, body);
            && s[0] == hdr.typ
            && s[1..4] == ToBigEndian(hdr.msgLen, 3)
            && s[4..6] == ToBigEndian(hdr.seqNo, 2)
            && s[6..9] == ToBigEndian(hdr.fragOff, 3)
            && s[9..12] == ToBigEndian(hdr.fragLen, 3)
            && s[12..] == body
  {
  }

  lemma ParseSerialize(hdr: Header, body: seq<byte>, rest: seq<byte>)
    requires hdr.Fits() && hdr.fragLen == |body|
    ensures ParseFragment(Serialize(hdr, body) + rest) == Parsed(hdr, body, rest)
  {
    var s := Serialize(hdr, body + rest);
    assert Serialize(hdr, body) + rest == s;
    FieldsAt(hdr, body + rest);
    FieldRoundTrip(hdr.msgLen);
    FieldRoundTrip(hdr.seqNo);
    FieldRoundTrip(hdr.fragOff);
    FieldRoundTrip(hdr.fragLen);
    assert s[12..][..|body|] == body && s[12..][|body|..] == rest;
  }

  /** What parses is the serialisation of what it parses to, and every such byte string parses. */
  lemma ParsedExactly(cbs: seq<byte>, hdr: Header, body: seq<byte>, rest: seq<byte>)
    ensures ParseFragment(cbs) == Parsed(hdr, body, rest) <==>
              hdr.Fits() && hdr.fragLen == |body| && cbs == Serialize(hdr, body) + rest
  {
    hide BigEndian, ToBigEndian;
    if hdr.Fits() && hdr.fragLen == |body| && cbs == Serialize(hdr, body) + rest {
      ParseSerialize(hdr, body, rest);
    }
    if ParseFragment(cbs) == Parsed(hdr, body, rest) {
      DigitsBack(cbs[1..4]);
      DigitsBack(cbs[4..6]);
      DigitsBack(cbs[6..9]);
      DigitsBack(cbs[9..12]);
      assert cbs[12..] == body + rest;
      assert cbs == [cbs[0]] + cbs[1..4] + cbs[4..6] + cbs[6..9] + cbs[9..12] + cbs[12..];
    }
  }

  lemma DigitsBack(bytes: seq<byte>)
    ensures ToBigEndian(BigEndian(bytes), |bytes|) == bytes
  {
    BigEndianRoundTrip(BigEndian(bytes), |bytes|);
    BigEndianInjective(ToBigEndian(BigEndian(bytes), |bytes|), bytes);
  }
}
