/**
  * What the sending side of the DTLS handshake (d1_both.cc, dtls_record.cc) puts on the wire, on
  * values: which records carry which part of which message, and under which record number.
  */
module SenderSpec {
  import opened Bytes
  import opened HandshakeFragment
  import opened ReceiverSpec

  /** DTLS1_RT_HEADER_LENGTH */
  const RT_HEADER_LENGTH: nat := 13

  /** DTLS_OUTGOING_MESSAGE: a serialised handshake message, or a ChangeCipherSpec. */
  datatype Outgoing = Outgoing(data: seq<byte>, epoch: nat, isCcs: bool) {

    /** The message body, after its header. */
    function Body(): seq<byte> {
      if |data| < HM_HEADER_LENGTH then [] else data[HM_HEADER_LENGTH..]
    }

    /** How far a cursor can move within this message. */
    function Length(): nat {
      if isCcs then 0 else |Body()|
    }

    /** `data` is handshake message number `seqNo`, as one whole fragment. */
    ghost predicate Carries(m: Message, seqNo: nat) {
      && |m.body| < 0x100_0000
      && data == Serialize(WholeHeader(m, seqNo), m.body)
    }
  }

  function WholeHeader(m: Message, seqNo: nat): Header {
    Header(m.typ, |m.body|, seqNo % 0x1_0000, 0, |m.body|)
  }

  /** The part of message number `msg` in its connection, at `off` and `len` bytes long. */
  datatype Part = NoPart | Part(msg: nat, off: nat, len: nat)

  /** A sealed record: what was put under the AEAD, its epoch and number, its size on the wire, and what it is about. */
  datatype Sealed = Sealed(typ: byte, epoch: nat, number: nat, payload: seq<byte>, length: nat, part: Part) {

    /** A record that carries what the sender queued, and nothing else. */
    ghost predicate Genuine(queued: seq<Message>) {
      GenuineContent(typ, payload, part, queued)
    }
  }

  ghost predicate GenuineContent(typ: byte, payload: seq<byte>, part: Part, queued: seq<Message>) {
    match part
    case NoPart => typ == RT_CHANGE_CIPHER_SPEC && payload == [MT_CCS]
    case Part(msg, off, len) =>
      && typ == RT_HANDSHAKE
      && msg < |queued|
      && IsFragment(payload, queued[msg], msg, off, len)
  }

  /** `payload` is the fragment of `m`, message number `seqNo`, at `off` and `len` bytes long. */
  ghost predicate IsFragment(payload: seq<byte>, m: Message, seqNo: nat, off: nat, len: nat) {
    && |m.body| < 0x100_0000
    && off + len <= |m.body|
    && payload == Serialize(Header(m.typ, |m.body|, seqNo % 0x1_0000, off, len), m.body[off..off + len])
  }

  ghost predicate AllGenuine(sealed: seq<Sealed>, queued: seq<Message>) {
    forall i | 0 <= i < |sealed| :: sealed[i].Genuine(queued)
  }

  /** `flight` holds messages that were queued, in order; `numbers` says which. */
  ghost predicate FlightFrom(flight: seq<Outgoing>, numbers: seq<nat>, queued: seq<Message>) {
    && |flight| <= MAX_FLIGHT && |numbers| == |flight|
    && (forall i | 0 <= i < |flight| && !flight[i].isCcs ::
          && numbers[i] < |queued| <= numbers[i] + |flight| - i
          && flight[i].Carries(queued[numbers[i]], numbers[i]))
    && forall i, j | 0 <= i < j < |flight| && !flight[i].isCcs && !flight[j].isCcs :: numbers[i] < numbers[j]
  }

  lemma FlightAppend(flight: seq<Outgoing>, numbers: seq<nat>, queued: seq<Message>, o: Outgoing, m: Message)
    requires FlightFrom(flight, numbers, queued) && |flight| < MAX_FLIGHT
    requires !o.isCcs ==> o.Carries(m, |queued|)
    ensures FlightFrom(flight + [o], numbers + [|queued|], if o.isCcs then queued else queued + [m])
  {
    hide Outgoing.Carries;
  }

  /** The bytes of a record payload parse as the whole message they serialise. */
  lemma ParseWhole(o: Outgoing, m: Message, seqNo: nat)
    requires o.Carries(m, seqNo)
    ensures ParseFragment(o.data) == Parsed(WholeHeader(m, seqNo), m.body, []) && o.Body() == m.body
  {
    ParseSerialize(WholeHeader(m, seqNo), m.body, []);
    FieldsAt(WholeHeader(m, seqNo), m.body);
    assert o.data + [] == o.data;
  }

  lemma GenuineStays(sealed: seq<Sealed>, queued: seq<Message>, more: seq<Message>)
    requires AllGenuine(sealed, queued)
    ensures AllGenuine(sealed, queued + more)
  {
    hide IsFragment;
    forall i | 0 <= i < |sealed| ensures sealed[i].Genuine(queued + more) {
      assert sealed[i].Genuine(queued);
    }
  }

  lemma GenuineAppend(sealed: seq<Sealed>, rec: Sealed, queued: seq<Message>)
    requires AllGenuine(sealed, queued) && rec.Genuine(queued)
    ensures AllGenuine(sealed + [rec], queued)
  {
    hide GenuineContent;
  }

  // Record numbers

  /**
    * Within an epoch the record numbers rise strictly. Records of the current and of the previous
    * epoch are below the next number of that epoch; there is no record of a later epoch.
    */
  ghost predicate NumbersRise(sealed: seq<Sealed>, epoch: nat, next: nat, lastNext: nat) {
    && (forall i, j | 0 <= i < j < |sealed| && sealed[i].epoch == sealed[j].epoch :: sealed[i].number < sealed[j].number)
    && (forall i | 0 <= i < |sealed| ::
          && sealed[i].epoch <= epoch
          && (sealed[i].epoch == epoch ==> sealed[i].number < next)
          && (sealed[i].epoch + 1 == epoch ==> sealed[i].number < lastNext))
  }

  /** A number of the current or the previous epoch can be used up, by a record or by none. */
  lemma NumberUsed(sealed: seq<Sealed>, epoch: nat, next: nat, lastNext: nat, previous: bool, recs: seq<Sealed>)
    requires NumbersRise(sealed, epoch, next, lastNext) && (previous ==> epoch >= 1)
    requires |recs| <= 1
    requires forall r <- recs :: r.epoch == (if previous then epoch - 1 else epoch)
                              && r.number == (if previous then lastNext else next)
    ensures NumbersRise(sealed + recs, epoch, if previous then next else next + 1, if previous then lastNext + 1 else lastNext)
  {
  }

  /** A key change opens the next epoch at number zero. */
  lemma NextEpochRises(sealed: seq<Sealed>, epoch: nat, next: nat, lastNext: nat)
    requires NumbersRise(sealed, epoch, next, lastNext)
    ensures NumbersRise(sealed, epoch + 1, 0, next)
  {
  }

  /** No two records share an epoch and a number. */
  lemma RecordNumbersDistinct(sealed: seq<Sealed>, epoch: nat, next: nat, lastNext: nat, i: nat, j: nat)
    requires NumbersRise(sealed, epoch, next, lastNext) && i < |sealed| && j < |sealed| && i != j
    ensures (sealed[i].epoch, sealed[i].number) != (sealed[j].epoch, sealed[j].number)
  {
    if i < j && sealed[i].epoch == sealed[j].epoch {
      assert sealed[i].number < sealed[j].number;
    }
  }

  // The cursor over a flight

  /** outgoing_written and outgoing_offset */
  datatype Cursor = Cursor(written: nat, offset: nat)

  /** The cursor is inside the flight, and not at the end of a message. */
  predicate CursorOk(flight: seq<Outgoing>, c: Cursor) {
    && c.written <= |flight|
    && (c.offset > 0 ==> c.written < |flight| && c.offset < flight[c.written].Length())
  }

  /** The cursor after `len` more bytes of its message. */
  function Advance(flight: seq<Outgoing>, c: Cursor, len: nat): Cursor
    requires c.written < |flight|
  {
    if c.offset + len == flight[c.written].Length() then Cursor(c.written + 1, 0) else Cursor(c.written, c.offset + len)
  }

  function PartLength(rec: Sealed): nat {
    if rec.part.Part? then rec.part.len else 0
  }

  /** `rec` carries the next bytes of the message under the cursor, under the epoch of that message. */
  ghost predicate Carries(flight: seq<Outgoing>, c: Cursor, rec: Sealed) {
    && c.written < |flight|
    && rec.epoch == flight[c.written].epoch
    && if flight[c.written].isCcs then rec.part == NoPart && rec.typ == RT_CHANGE_CIPHER_SPEC && rec.payload == [MT_CCS]
       else
         && rec.typ == RT_HANDSHAKE
         && rec.part.Part?
         && rec.part.off == c.offset
         && c.offset + rec.part.len <= flight[c.written].Length()
         && (rec.part.len == 0 ==> flight[c.written].Length() == 0)
         && FragmentOf(rec.payload, flight[c.written].data, c.offset, rec.part.len)
  }

  /** `payload` is the serialised message `data` cut to `len` bytes of its body from `off`. */
  ghost predicate FragmentOf(payload: seq<byte>, data: seq<byte>, off: nat, len: nat) {
    var p := ParseFragment(data);
    && p.Parsed? && off + len <= |p.body|
    && payload == Serialize(p.hdr.(fragOff := off, fragLen := len), p.body[off..off + len])
  }

  /** The records `recs`, in order, carry exactly what lies between the cursors `from` and `to`. */
  ghost predicate Covers(flight: seq<Outgoing>, from: Cursor, recs: seq<Sealed>, to: Cursor)
    decreases |recs|
  {
    if recs == [] then from == to
    else
      && Carries(flight, from, recs[0])
      && Covers(flight, Advance(flight, from, PartLength(recs[0])), recs[1..], to)
  }

  lemma {:induction false} CoversAppend(flight: seq<Outgoing>, a: Cursor, xs: seq<Sealed>, b: Cursor, ys: seq<Sealed>, c: Cursor)
    requires Covers(flight, a, xs, b) && Covers(flight, b, ys, c)
    ensures Covers(flight, a, xs + ys, c)
    decreases |xs|
  {
    hide FragmentOf;
    if xs == [] {
      assert xs + ys == ys;
    } else {
      CoversAppend(flight, Advance(flight, a, PartLength(xs[0])), xs[1..], b, ys, c);
      assert (xs + ys)[1..] == xs[1..] + ys;
    }
  }

  function TotalLength(recs: seq<Sealed>): nat {
    if recs == [] then 0 else TotalLength(recs[..|recs| - 1]) + recs[|recs| - 1].length
  }

  lemma CoversSnoc(flight: seq<Outgoing>, from: Cursor, recs: seq<Sealed>, at: Cursor, rec: Sealed)
    requires Covers(flight, from, recs, at) && Carries(flight, at, rec)
    ensures Covers(flight, from, recs + [rec], Advance(flight, at, PartLength(rec)))
    ensures TotalLength(recs + [rec]) == TotalLength(recs) + rec.length
  {
    hide FragmentOf;
    var to := Advance(flight, at, PartLength(rec));
    assert [rec][1..] == [] && Covers(flight, to, [], to);
    CoversAppend(flight, from, recs, at, [rec], to);
    assert (recs + [rec])[..|recs|] == recs;
  }

  predicate Before(a: Cursor, b: Cursor) {
    a.written < b.written || (a.written == b.written && a.offset < b.offset)
  }

  /** Each record moves the cursor forward. */
  lemma {:induction false} CoversMovesForward(flight: seq<Outgoing>, from: Cursor, recs: seq<Sealed>, to: Cursor)
    requires Covers(flight, from, recs, to) && CursorOk(flight, from)
    ensures CursorOk(flight, to) && (if recs == [] then from == to else Before(from, to))
    decreases |recs|
  {
    hide FragmentOf, Outgoing.Body;
    if recs != [] {
      CoversMovesForward(flight, Advance(flight, from, PartLength(recs[0])), recs[1..], to);
    }
  }

  /** Records and start determine the end, so what comes after a cursor moves the cover past it. */
  lemma {:induction false} CoversUnique(flight: seq<Outgoing>, from: Cursor, recs: seq<Sealed>, to: Cursor, to': Cursor)
    requires Covers(flight, from, recs, to) && Covers(flight, from, recs, to')
    ensures to == to'
    decreases |recs|
  {
    hide FragmentOf, Outgoing.Body;
    if recs != [] {
      CoversUnique(flight, Advance(flight, from, PartLength(recs[0])), recs[1..], to, to');
    }
  }

  function Flatten(packets: seq<seq<Sealed>>): seq<Sealed> {
    if packets == [] then [] else Flatten(packets[..|packets| - 1]) + packets[|packets| - 1]
  }

  lemma FlattenSnoc(packets: seq<seq<Sealed>>, packet: seq<Sealed>)
    ensures Flatten(packets + [packet]) == Flatten(packets) + packet
  {
    assert (packets + [packet])[..|packets|] == packets;
  }

  lemma EmptyPackets(flight: seq<Outgoing>, c: Cursor)
    ensures Flatten([]) == [] && Flatten([]) + [] == [] && Covers(flight, c, [], c)
  {
  }

  // One pass over a flight cuts each message into tiles

  /** The fragments among `recs` whose header bears the message number `seqNo`, in order. */
  function FragmentsOf(recs: seq<Sealed>, seqNo: nat): seq<Parsed> {
    if recs == [] then []
    else
      var p := ParseFragment(recs[0].payload);
      (if recs[0].typ == RT_HANDSHAKE && p.Parsed? && p.hdr.seqNo == seqNo then [p] else []) + FragmentsOf(recs[1..], seqNo)
  }

  /** The fragments lie end to end from `at` to the end of `body`, each with the message's own header fields and bytes. */
  ghost predicate Tiles(frags: seq<Parsed>, at: nat, hdr: Header, body: seq<byte>)
    decreases |frags|
  {
    if frags == [] then at == |body|
    else
      var f := frags[0];
      && f.Parsed? && f.rest == []
      && at + |f.body| <= |body|
      && f.hdr == hdr.(fragOff := at, fragLen := |f.body|)
      && f.body == body[at..at + |f.body|]
      && Tiles(frags[1..], at + |f.body|, hdr, body)
  }

  /** Every handshake message of the flight is serialised whole, and no two share a number. */
  ghost predicate FlightWellFormed(flight: seq<Outgoing>) {
    && (forall i | 0 <= i < |flight| && !flight[i].isCcs :: WholeMessage(flight[i]))
    && forall i, j | 0 <= i < j < |flight| && !flight[i].isCcs && !flight[j].isCcs :: NumberOf(flight[i]) != NumberOf(flight[j])
  }

  ghost predicate WholeMessage(o: Outgoing) {
    var p := ParseFragment(o.data);
    p.Parsed? && p.rest == [] && p.hdr.fragOff == 0 && p.hdr.msgLen == |p.body| && p.body == o.Body() && p.hdr.Fits()
  }

  function NumberOf(o: Outgoing): nat {
    var p := ParseFragment(o.data);
    if p.Parsed? then p.hdr.seqNo else 0
  }

  /** So a pass over a flight that was queued tiles each of its messages. */
  lemma FlightFromIsWellFormed(flight: seq<Outgoing>, numbers: seq<nat>, queued: seq<Message>)
    requires FlightFrom(flight, numbers, queued)
    ensures FlightWellFormed(flight)
  {
    hide ParseFragment, Serialize;
    forall i: nat | i < |flight| && !flight[i].isCcs
      ensures WholeMessage(flight[i]) && NumberOf(flight[i]) == numbers[i] % 0x1_0000
    {
      ParseWhole(flight[i], queued[numbers[i]], numbers[i]);
    }
  }

  /** What a record carrying part of message `o` parses to. */
  lemma ParsePart(payload: seq<byte>, o: Outgoing, off: nat, len: nat)
    requires WholeMessage(o) && FragmentOf(payload, o.data, off, len)
    ensures ParseFragment(payload)
            == Parsed(ParseFragment(o.data).hdr.(fragOff := off, fragLen := len), o.Body()[off..off + len], [])
    ensures off + len <= |o.Body()|
  {
    hide Serialize, ParseFragment;
    var p := ParseFragment(o.data);
    ParseSerialize(p.hdr.(fragOff := off, fragLen := len), p.body[off..off + len], []);
    assert payload + [] == payload;
  }

  /** The first record of a cover contributes a fragment to the message under the cursor, and to no other. */
  lemma FirstFragment(flight: seq<Outgoing>, from: Cursor, recs: seq<Sealed>, i: nat)
    requires FlightWellFormed(flight) && recs != [] && Carries(flight, from, recs[0])
    requires i < |flight| && !flight[i].isCcs
    ensures FragmentsOf(recs, NumberOf(flight[i]))
            == (if from.written == i then [ParseFragment(recs[0].payload)] else []) + FragmentsOf(recs[1..], NumberOf(flight[i]))
    ensures from.written == i ==>
              && recs[0].part.Part? && from.offset + recs[0].part.len <= |flight[i].Body()|
              && ParseFragment(recs[0].payload)
                 == Parsed(ParseFragment(flight[i].data).hdr.(fragOff := from.offset, fragLen := recs[0].part.len),
                           flight[i].Body()[from.offset..from.offset + recs[0].part.len], [])
  {
    hide FragmentOf, ParseFragment, Outgoing.Body;
    var o := flight[from.written];
    if !o.isCcs {
      assert WholeMessage(o);
      ParsePart(recs[0].payload, o, from.offset, recs[0].part.len);
      assert ParseFragment(recs[0].payload).hdr.seqNo == NumberOf(o);
    }
  }

  /** From the cursor `from` to the end of the flight, the fragments of message i tile what is left of it. */
  lemma {:induction false} CoverTiles(flight: seq<Outgoing>, from: Cursor, recs: seq<Sealed>, i: nat)
    requires FlightWellFormed(flight) && CursorOk(flight, from)
    requires i < |flight| && !flight[i].isCcs
    requires Covers(flight, from, recs, Cursor(|flight|, 0))
    ensures var frags := FragmentsOf(recs, NumberOf(flight[i]));
            if from.written > i then frags == []
            else frags != [] && Tiles(frags, if from.written == i then from.offset else 0,
                                      ParseFragment(flight[i].data).hdr, flight[i].Body())
    decreases |recs|
  {
    hide FragmentOf, ParseFragment, Outgoing.Body, FragmentsOf, FlightWellFormed;
    if recs == [] {
      NoFragments(NumberOf(flight[i]));
    } else {
      var next := Advance(flight, from, PartLength(recs[0]));
      AdvanceOk(flight, from, recs[0]);
      CoverTiles(flight, next, recs[1..], i);
      FirstFragment(flight, from, recs, i);
      if from.written == i {
        assert FragmentsOf(recs, NumberOf(flight[i]))[1..] == FragmentsOf(recs[1..], NumberOf(flight[i]));
      } else {
        assert FragmentsOf(recs, NumberOf(flight[i])) == FragmentsOf(recs[1..], NumberOf(flight[i]));
      }
    }
  }

  lemma NoFragments(seqNo: nat)
    ensures FragmentsOf([], seqNo) == []
  {
  }

  lemma AdvanceOk(flight: seq<Outgoing>, from: Cursor, rec: Sealed)
    requires CursorOk(flight, from) && Carries(flight, from, rec)
    ensures CursorOk(flight, Advance(flight, from, PartLength(rec)))
  {
    hide FragmentOf, Outgoing.Body;
  }
}
