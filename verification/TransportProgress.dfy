/**
  * What a receiver makes of a flight that gets through: once every part of a message has arrived, in
  * any order and any number of times, the message is complete and is the one that was sent.
  */
module TransportProgress {
  import opened Bits
  import opened Bytes
  import opened HandshakeFragment
  import opened Reassembly
  import opened ReplayWindow
  import opened ReceiverSpec
  import opened SenderSpec
  import opened Sending
  import opened Transport

  datatype Piece = Piece(hdr: Header, body: seq<byte>)

  /** A piece of a queued message that the receiver is ready for. */
  ghost predicate Acceptable(net: Net, p: Piece, maxLen: nat) {
    && PartOf(net.sender.queued, p.hdr, p.body) && p.hdr.Fits()
    && |net.delivered| <= p.hdr.seqNo < |net.delivered| + MAX_FLIGHT
    && p.hdr.msgLen <= maxLen
    && (net.receiver.Epoch() == 1 ==> p.hdr.seqNo == net.receiver.readSeq)
  }

  /** The ring has the message numbered k, with position i in. */
  ghost predicate Has(s: State, k: nat, i: nat) {
    |s.slots| == MAX_FLIGHT && Holds(s, k) && i in s.slots[k % MAX_FLIGHT].value.content
  }

  ghost predicate Covered(pieces: seq<Piece>, k: nat, i: nat) {
    exists j | 0 <= j < |pieces| ::
      pieces[j].hdr.seqNo == k && pieces[j].hdr.fragOff <= i < pieces[j].hdr.fragOff + pieces[j].hdr.fragLen
  }

  /** The fragments of `pieces` accepted one after the other. */
  function AcceptEach(s: State, pieces: seq<Piece>, maxLen: nat): (r: (State, bool))
    requires |s.slots| == MAX_FLIGHT
    ensures |r.0.slots| == MAX_FLIGHT
    decreases |pieces|
  {
    if pieces == [] then (s, true)
    else
      var (s', ok) := AcceptFragment(s, pieces[0].hdr, pieces[0].body, maxLen);
      if ok then AcceptEach(s', pieces[1..], maxLen) else (s', false)
  }

  function SerializeAll(pieces: seq<Piece>): seq<byte> {
    if pieces == [] then [] else Serialize(pieces[0].hdr, pieces[0].body) + SerializeAll(pieces[1..])
  }

  /** A payload of several fragments is taken apart into these. */
  lemma {:induction false} PayloadOfMany(s: State, pieces: seq<Piece>, maxLen: nat)
    requires |s.slots| == MAX_FLIGHT
    requires forall p <- pieces :: p.hdr.Fits() && p.hdr.fragLen == |p.body|
    ensures AcceptFragments(s, SerializeAll(pieces), maxLen) == AcceptEach(s, pieces, maxLen)
    decreases |pieces|
  {
    hide AcceptFragment, ParseFragment, Serialize;
    if pieces != [] {
      var p := pieces[0];
      ParseSerialize(p.hdr, p.body, SerializeAll(pieces[1..]));
      assert SerializeAll(pieces) != [];
      PayloadOfMany(AcceptFragment(s, p.hdr, p.body, maxLen).0, pieces[1..], maxLen);
    }
  }

  lemma AcceptOne(net: Net, p: Piece, maxLen: nat)
    requires net.receiver.Valid() && net.InStep() && |net.sender.queued| <= MAX_MESSAGES && Acceptable(net, p, maxLen)
    ensures var (s', ok) := AcceptFragment(net.receiver, p.hdr, p.body, maxLen);
            && ok
            && s'.readSeq == net.receiver.readSeq && s'.keyChanges == net.receiver.keyChanges
            && s'.Valid() && net.(receiver := s').InStep()
            && Holds(s', p.hdr.seqNo)
            && (forall k | Holds(net.receiver, k) :: Holds(s', k))
            && (forall k, i | Has(net.receiver, k, i) || Covered([p], k, i) :: Has(s', k, i))
  {
    var s := net.receiver;
    var idx := p.hdr.seqNo % MAX_FLIGHT;
    AcceptKeepsStep(net, p.hdr, p.body, maxLen);
    if s.slots[idx].Some? {
      SlotMatches(s, p.hdr);
      assert net.Agrees(s.slots[idx].value);
    }
  }

  lemma {:induction false} AcceptAll(net: Net, pieces: seq<Piece>, maxLen: nat)
    requires net.receiver.Valid() && net.InStep() && |net.sender.queued| <= MAX_MESSAGES
    requires forall p <- pieces :: Acceptable(net, p, maxLen)
    ensures var (s', ok) := AcceptEach(net.receiver, pieces, maxLen);
            && ok && s'.Valid() && net.(receiver := s').InStep()
            && (forall k | Holds(net.receiver, k) :: Holds(s', k))
            && (forall p <- pieces :: Holds(s', p.hdr.seqNo))
            && (forall k, i | Has(net.receiver, k, i) || Covered(pieces, k, i) :: Has(s', k, i))
    decreases |pieces|
  {
    hide Net.Agrees, State.SlotOk, AcceptFragment, Has, Holds, PartOf;
    if pieces != [] {
      AcceptOne(net, pieces[0], maxLen);
      var net' := net.(receiver := AcceptFragment(net.receiver, pieces[0].hdr, pieces[0].body, maxLen).0);
      forall p <- pieces[1..] ensures Acceptable(net', p, maxLen) {
        assert Acceptable(net, p, maxLen);
      }
      AcceptAll(net', pieces[1..], maxLen);
      forall k, i | Covered(pieces, k, i) ensures Covered([pieces[0]], k, i) || Covered(pieces[1..], k, i) {
        CoveredSplit(pieces, k, i);
      }
      assert forall p <- pieces :: p == pieces[0] || p in pieces[1..];
    }
  }

  lemma CoveredSplit(pieces: seq<Piece>, k: nat, i: nat)
    requires pieces != [] && Covered(pieces, k, i)
    ensures Covered([pieces[0]], k, i) || Covered(pieces[1..], k, i)
  {
    var j :| 0 <= j < |pieces| &&
             pieces[j].hdr.seqNo == k && pieces[j].hdr.fragOff <= i < pieces[j].hdr.fragOff + pieces[j].hdr.fragLen;
    if j > 0 {
      assert pieces[1..][j - 1] == pieces[j];
    } else {
      assert [pieces[0]][0] == pieces[0];
    }
  }

  /**
    * Any pieces of queued messages, in any order and with any repetition, are all accepted; and a
    * message that the pieces cover from end to end is then complete, with the body that was queued.
    */
  lemma CoveredIsComplete(net: Net, pieces: seq<Piece>, maxLen: nat, k: nat)
    requires net.receiver.Valid() && net.InStep() && |net.sender.queued| <= MAX_MESSAGES
    requires forall p <- pieces :: Acceptable(net, p, maxLen)
    requires k < |net.sender.queued| && exists p <- pieces :: p.hdr.seqNo == k
    requires forall i: nat | i < |net.sender.queued[k].body| :: Covered(pieces, k, i)
    ensures var (s', ok) := AcceptEach(net.receiver, pieces, maxLen);
            && ok && Holds(s', k)
            && var m := s'.slots[k % MAX_FLIGHT].value;
            && m.Complete() && Message(m.typ, m.Body()) == net.sender.queued[k]
  {
    hide AcceptEach, Covered, PartOf;
    AcceptAll(net, pieces, maxLen);
    var s' := AcceptEach(net.receiver, pieces, maxLen).0;
    var m := s'.slots[k % MAX_FLIGHT].value;
    assert net.(receiver := s').Agrees(m);
    forall i: nat | i < m.msgLen ensures i in m.content {
      assert Has(s', k, i);
    }
    assert m.Body() == net.sender.queued[k].body;
  }

  /** The pieces that one pass of the sender cuts a message into cover it. */
  lemma {:induction false} TilesCover(frags: seq<Parsed>, at: nat, hdr: Header, body: seq<byte>, pieces: seq<Piece>, i: nat)
    requires Tiles(frags, at, hdr, body) && at <= i < |body|
    requires forall f <- frags :: f.Parsed? && Piece(f.hdr, f.body) in pieces
    ensures Covered(pieces, hdr.seqNo, i)
    decreases |frags|
  {
    if frags != [] {
      var f := frags[0];
      if i < at + |f.body| {
        var j :| 0 <= j < |pieces| && pieces[j] == Piece(f.hdr, f.body);
      } else {
        TilesCover(frags[1..], at + |f.body|, hdr, body, pieces, i);
      }
    }
  }

  // The window in a run

  /** The window of every reachable receiver stands for a set of record numbers. */
  lemma {:induction false} WindowStandsForSet(net: Net, events: seq<Event>, end: Net, seen: set<nat>)
    returns (seen': set<nat>)
    requires IsRun(net, events, end) && net.receiver.window.Represents(seen)
    ensures end.receiver.window.Represents(seen')
    decreases |events|
  {
    hide Window.Represents, Net.After, Net.Enabled;
    if events == [] {
      seen' := seen;
    } else {
      var seen1 := StepWindow(net, events[0], seen);
      seen' := WindowStandsForSet(net.After(events[0]), events[1..], end, seen1);
    }
  }

  lemma StepWindow(net: Net, e: Event, seen: set<nat>) returns (seen': set<nat>)
    requires |net.receiver.slots| == MAX_FLIGHT && net.Enabled(e) && net.receiver.window.Represents(seen)
    ensures net.After(e).receiver.window.Represents(seen')
  {
    hide Window.Represents, Window.Record, Window.ShouldDiscard, BigEndian, AcceptFragments, Net.Authentic, HasUnprocessed;
    EmptyRepresents();
    seen' := seen;
    match e {
      case Arrive(r, maxLen) => seen' := OpenWindow(net.receiver, r, maxLen, seen);
      case ArriveForCcs(r, maxLen) =>
        if !net.receiver.hasCcs {
          seen' := OpenWindow(net.receiver, r, maxLen, seen);
        }
      case ChangeReadKey(n) => seen' := if HasUnprocessed(net.receiver) then seen else {};
      case Queue(_) =>
      case QueueCcs =>
      case FlushFlight =>
      case ClearFlight =>
      case Seal(_, _) =>
      case UseNumber(_) =>
      case ChangeWriteKey =>
      case Get =>
      case Next =>
    }
  }

  lemma OpenWindow(s: State, r: Record, maxLen: nat, seen: set<nat>) returns (seen': set<nat>)
    requires |s.slots| == MAX_FLIGHT && r.WellFormed() && s.window.Represents(seen)
    ensures OpenHandshake(s, r, maxLen).0.window.Represents(seen')
  {
    hide Window.Represents, Window.Record, Window.ShouldDiscard, BigEndian, AcceptFragments;
    seen' := seen;
    var (s1, outcome) := OpenRecord(s, r);
    if s1 != s {
      RecordAdds(s.window, BigEndian(r.sequence), seen);
      seen' := seen + {BigEndian(r.sequence)};
    }
    if outcome == Success && r.typ == RT_HANDSHAKE {
      PayloadKeepsWindow(s1, r.plaintext.value, maxLen);
    }
  }

  lemma {:induction false} PayloadKeepsWindow(s: State, cbs: seq<byte>, maxLen: nat)
    requires |s.slots| == MAX_FLIGHT
    ensures AcceptFragments(s, cbs, maxLen).0.window == s.window
    decreases |cbs|
  {
    hide ParseFragment, AcceptFragment;
    if cbs != [] && ParseFragment(cbs).Parsed? {
      var p := ParseFragment(cbs);
      OnlyRing(s, p.hdr, p.body, maxLen);
      PayloadKeepsWindow(AcceptFragment(s, p.hdr, p.body, maxLen).0, p.rest, maxLen);
    }
  }

  // Whole records

  /** A sealed record as it arrives, and opens */
  function AsRecord(rec: Sealed): (r: Record)
    ensures r.WellFormed()
  {
    Record(rec.typ, true, ToBigEndian(WireNumber(rec), 8), Some(rec.payload))
  }

  lemma SequenceOf(rec: Sealed)
    requires rec.number < NUMBER_LIMIT
    ensures BigEndian(AsRecord(rec).sequence) == WireNumber(rec)
    ensures AsRecord(rec).Epoch() == rec.epoch % 0x1_0000
  {
    hide BigEndian, ToBigEndian, Pow2;
    var s := AsRecord(rec).sequence;
    SixBytes();
    Pow2Step8(48);
    Pow2Step8(56);
    BigEndianRoundTrip(WireNumber(rec), 8);
    BigEndianConcat(s[..2], s[2..]);
    assert s == s[..2] + s[2..];
    TwoBytes(s[..2]);
    ModUnique(WireNumber(rec), NUMBER_LIMIT, BigEndian(s[..2]), BigEndian(s[2..]));
    ModUnique(WireNumber(rec), NUMBER_LIMIT, rec.epoch % 0x1_0000, rec.number);
  }

  lemma TwoBytes(s: seq<byte>)
    requires |s| == 2
    ensures var high: nat := s[0]; BigEndian(s) == 256 * high + s[1]
  {
    BigEndianSnoc([], s[0]);
    BigEndianSnoc([s[0]], s[1]);
    assert [] + [s[0]] == [s[0]] && [s[0]] + [s[1]] == s;
  }

  /** Record i carries part of a message, under the current key and within the limits on lengths. */
  ghost predicate InLimits(net: Net, i: nat, maxLen: nat) {
    && i < |net.sender.wire|
    && var rec := net.sender.wire[i];
    && rec.part.Part? && rec.epoch == net.receiver.keyChanges && |rec.payload| <= MAX_PLAIN_LENGTH
    && rec.part.msg < |net.sender.queued| && |net.sender.queued[rec.part.msg].body| <= maxLen
  }

  /** Such a record of an old, current or later message, but not of the one exactly seven ahead */
  ghost predicate Tolerated(net: Net, i: nat, maxLen: nat) {
    && InLimits(net, i, maxLen)
    && net.sender.wire[i].part.msg != |net.delivered| + MAX_FLIGHT
    && (net.receiver.Epoch() == 1 ==> net.sender.wire[i].part.msg == |net.delivered|)
  }

  /** The message is at or next to the read position. */
  ghost predicate Wanted(net: Net, i: nat) {
    && i < |net.sender.wire| && net.sender.wire[i].part.Part?
    && |net.delivered| <= net.sender.wire[i].part.msg < |net.delivered| + MAX_FLIGHT
  }

  /** What record i carries has been put in its place. */
  ghost predicate Got(net: Net, i: nat) {
    && i < |net.sender.wire| && net.sender.wire[i].part.Part?
    && var p := net.sender.wire[i].part;
    && Holds(net.receiver, p.msg) && forall x: nat | p.off <= x < p.off + p.len :: Has(net.receiver, p.msg, x)
  }

  /** The rest of the network is the same, and nothing received is lost. */
  ghost predicate Further(net: Net, end: Net) {
    && end.sender == net.sender && end.delivered == net.delivered
    && end.receiver == net.receiver.(slots := end.receiver.slots, window := end.receiver.window)
    && forall i | Got(net, i) :: Got(end, i)
  }

  lemma PartInLimits(net: Net, i: nat, maxLen: nat)
    requires net.Valid() && |net.sender.queued| <= MAX_MESSAGES && InLimits(net, i, maxLen)
    ensures var p := ParseFragment(net.sender.wire[i].payload);
            && p.Parsed? && p.rest == [] && p.hdr.Fits() && p.hdr.fragLen == |p.body|
            && p.hdr.fragOff + p.hdr.fragLen <= p.hdr.msgLen <= maxLen
            && (Wanted(net, i) && Tolerated(net, i, maxLen) ==> Acceptable(net, Piece(p.hdr, p.body), maxLen))
            && p.hdr.seqNo == net.sender.wire[i].part.msg
            && p.hdr.fragOff == net.sender.wire[i].part.off && p.hdr.fragLen == net.sender.wire[i].part.len
    ensures net.sender.wire[i].typ == RT_HANDSHAKE && net.sender.wire[i].number < NUMBER_LIMIT
  {
    hide ParseFragment, Serialize, IsFragment;
    assert net.sender.wire[i].Genuine(net.sender.queued);
    GenuineIsPart(net.sender.queued, net.sender.wire[i]);
  }

  /** What a tolerated record that the window lets pass leaves: it is in its place, or nothing has happened to the ring. */
  ghost predicate TakenIn(net: Net, end: Net, i: nat) {
    && Further(net, end)
    && if Wanted(net, i) then Got(end, i) else end.receiver == net.receiver.(window := end.receiver.window)
  }

  lemma RingIsFull(net: Net)
    requires net.Valid()
    ensures |net.receiver.slots| == MAX_FLIGHT
  {
  }

  /** A tolerated record that arrives never ends the handshake. It is taken in, unless the window discards it. */
  lemma ArriveOne(net: Net, i: nat, maxLen: nat)
    requires net.Valid() && |net.sender.queued| <= MAX_MESSAGES && Tolerated(net, i, maxLen)
    ensures net.Authentic(AsRecord(net.sender.wire[i]))
    ensures var rec := net.sender.wire[i];
            var (s', outcome) := OpenHandshake(net.receiver, AsRecord(rec), maxLen);
            if net.receiver.window.ShouldDiscard(WireNumber(rec)) then s' == net.receiver && outcome == Discard
            else
              && outcome == Success
              && s'.window == net.receiver.window.Record(WireNumber(rec))
              && TakenIn(net, net.(receiver := s'), i)
  {
    hide ParseFragment, Serialize, BigEndian, ToBigEndian, WireNumber, AcceptFragments, AcceptFragment, Net.Valid;
    hide Window.ShouldDiscard, Window.Record, Has, Holds, PartOf, TakenIn;
    var rec, s := net.sender.wire[i], net.receiver;
    var r, n := AsRecord(rec), WireNumber(rec);
    PartInLimits(net, i, maxLen);
    SequenceOf(rec);
    assert net.Opens(rec, r);
    if s.window.ShouldDiscard(n) {
      assert OpenRecord(s, r) == (s, Discard);
    } else {
      var s1 := s.(window := s.window.Record(n));
      assert OpenRecord(s, r) == (s1, Success);
      RingIsFull(net);
      OneFragment(s1, rec.payload, maxLen);
      PartTakenIn(net, i, maxLen, s1.window);
    }
  }

  /** The fragment of a tolerated record, after the record has been opened */
  lemma PartTakenIn(net: Net, i: nat, maxLen: nat, w: Window)
    requires net.Valid() && |net.sender.queued| <= MAX_MESSAGES && Tolerated(net, i, maxLen)
    requires !net.receiver.window.ShouldDiscard(WireNumber(net.sender.wire[i]))
    ensures |net.receiver.slots| == MAX_FLIGHT
    ensures var p := ParseFragment(net.sender.wire[i].payload);
            && p.Parsed?
            && var (s', ok) := AcceptFragment(net.receiver.(window := w), p.hdr, p.body, maxLen);
            && ok && s'.window == w && TakenIn(net, net.(receiver := s'), i)
  {
    hide ParseFragment, AcceptFragment, Net.Valid, Has, Holds, PartOf, Window.ShouldDiscard, WireNumber, Got;
    var s1 := net.receiver.(window := w);
    var p := ParseFragment(net.sender.wire[i].payload);
    PartInLimits(net, i, maxLen);
    ReadyAgain(net, w);
    OnlyRing(s1, p.hdr, p.body, maxLen);
    if Wanted(net, i) {
      AcceptOne(net.(receiver := s1), Piece(p.hdr, p.body), maxLen);
      PieceIsGot(net, s1, AcceptFragment(s1, p.hdr, p.body, maxLen).0, i, Piece(p.hdr, p.body));
    } else {
      PassedNumber(net, i);
      AcceptedExactly(s1, p.hdr, p.body, maxLen);
      SameRingGot(net, s1);
    }
  }

  /** A record within the limits that is not tolerated fails when the window lets it pass. */
  lemma IntolerableFails(net: Net, i: nat, maxLen: nat)
    requires net.Valid() && |net.sender.queued| <= MAX_MESSAGES && InLimits(net, i, maxLen) && !Tolerated(net, i, maxLen)
    requires !net.receiver.window.ShouldDiscard(WireNumber(net.sender.wire[i]))
    ensures |net.receiver.slots| == MAX_FLIGHT
    ensures OpenHandshake(net.receiver, AsRecord(net.sender.wire[i]), maxLen).1 == Error
  {
    hide ParseFragment, Serialize, BigEndian, ToBigEndian, WireNumber, AcceptFragments, AcceptFragment, Net.Valid;
    hide Window.ShouldDiscard, Window.Record, PartOf, State.Valid;
    var rec := net.sender.wire[i];
    var s1 := net.receiver.(window := net.receiver.window.Record(WireNumber(rec)));
    RingIsFull(net);
    PartInLimits(net, i, maxLen);
    SequenceOf(rec);
    assert OpenRecord(net.receiver, AsRecord(rec)) == (s1, Success);
    var p := ParseFragment(rec.payload);
    ReadyAgain(net, s1.window);
    OneFragment(s1, rec.payload, maxLen);
    IntolerableNumber(net, i, maxLen);
    AcceptedExactly(s1, p.hdr, p.body, maxLen);
  }

  lemma IntolerableNumber(net: Net, i: nat, maxLen: nat)
    requires net.Valid() && |net.sender.queued| <= MAX_MESSAGES && InLimits(net, i, maxLen) && !Tolerated(net, i, maxLen)
    requires !net.receiver.window.ShouldDiscard(WireNumber(net.sender.wire[i]))
    ensures || net.sender.wire[i].part.msg == net.receiver.readSeq + MAX_FLIGHT
            || (net.receiver.Epoch() == 1 && net.sender.wire[i].part.msg != net.receiver.readSeq)
  {
    hide WireNumber, Window.ShouldDiscard, Sending.Valid, Net.Agrees, Net.Came;
    if |net.delivered| == MAX_MESSAGES && net.sender.wire[i].part.msg <= MAX_FLIGHT {
      StaleAfterLast(net, i);
      assert false;
    }
  }

  /**
    * In every reachable state: a handshake record of the wire within the limits that arrives under its key ends the
    * handshake exactly when the window lets it pass and its message is seven ahead, or not the current one in epoch 1.
    * Any other is discarded by the window, or taken in: a part of a message read before leaves the ring as it was.
    */
  lemma FailsExactly(events: seq<Event>, net: Net, i: nat, r: Record, maxLen: nat)
    requires IsRun(START, events, net) && |net.sender.queued| <= MAX_MESSAGES && InLimits(net, i, maxLen)
    requires r.Record? && r.versionOk && r.WellFormed() && net.Opens(net.sender.wire[i], r)
    ensures |net.receiver.slots| == MAX_FLIGHT
    ensures var (s', outcome) := OpenHandshake(net.receiver, r, maxLen);
            && (outcome == Error <==>
                  !net.receiver.window.ShouldDiscard(WireNumber(net.sender.wire[i])) && !Tolerated(net, i, maxLen))
            && (outcome != Error ==> outcome in {Success, Discard})
            && (outcome == Success ==> TakenIn(net, net.(receiver := s'), i))
            && (outcome == Success <==>
                  !net.receiver.window.ShouldDiscard(WireNumber(net.sender.wire[i])) && Tolerated(net, i, maxLen))
  {
    hide IsRun, Net.Valid, OpenHandshake, WireNumber, Window.ShouldDiscard, BigEndian, TakenIn, AsRecord;
    StartIsValid();
    RunKeepsValid(START, events, net);
    RingIsFull(net);
    SameRecord(net, i, r, maxLen);
    if Tolerated(net, i, maxLen) {
      ArriveOne(net, i, maxLen);
    } else if net.receiver.window.ShouldDiscard(WireNumber(net.sender.wire[i])) {
      DiscardedAsBefore(net, i, maxLen);
    } else {
      IntolerableFails(net, i, maxLen);
    }
  }

  lemma SameRecord(net: Net, i: nat, r: Record, maxLen: nat)
    requires net.Valid() && |net.sender.queued| <= MAX_MESSAGES && InLimits(net, i, maxLen)
    requires r.Record? && r.versionOk && r.WellFormed() && net.Opens(net.sender.wire[i], r)
    ensures r == AsRecord(net.sender.wire[i])
  {
    hide Net.Valid, WireNumber, BigEndian, ToBigEndian, ParseFragment;
    var rec := net.sender.wire[i];
    PartInLimits(net, i, maxLen);
    SequenceOf(rec);
    BigEndianInjective(r.sequence, AsRecord(rec).sequence);
  }

  lemma DiscardedAsBefore(net: Net, i: nat, maxLen: nat)
    requires net.Valid() && |net.sender.queued| <= MAX_MESSAGES && InLimits(net, i, maxLen)
    requires net.receiver.window.ShouldDiscard(WireNumber(net.sender.wire[i]))
    ensures |net.receiver.slots| == MAX_FLIGHT
    ensures OpenHandshake(net.receiver, AsRecord(net.sender.wire[i]), maxLen) == (net.receiver, Discard)
  {
    hide Net.Valid, WireNumber, BigEndian, ToBigEndian, ParseFragment, Window.ShouldDiscard, AcceptFragments;
    RingIsFull(net);
    PartInLimits(net, i, maxLen);
    SequenceOf(net.sender.wire[i]);
  }

  /** A part that is not wanted is of a number outside the ring, unless the window discards it. */
  lemma PassedNumber(net: Net, i: nat)
    requires net.Valid() && |net.sender.queued| <= MAX_MESSAGES
    requires i < |net.sender.wire| && net.sender.wire[i].part.Part? && !Wanted(net, i)
    requires net.sender.wire[i].epoch == net.receiver.keyChanges && net.sender.wire[i].part.msg != |net.delivered| + MAX_FLIGHT
    requires !net.receiver.window.ShouldDiscard(WireNumber(net.sender.wire[i]))
    ensures !InRing(net.receiver, net.sender.wire[i].part.msg)
    ensures net.sender.wire[i].part.msg != net.receiver.readSeq + MAX_FLIGHT
    ensures |net.delivered| <= MAX_MESSAGES && (|net.delivered| < MAX_MESSAGES ==> net.receiver.readSeq == |net.delivered|)
  {
    hide WireNumber, Window.ShouldDiscard, Sending.Valid, Net.Agrees, Net.Came;
    if |net.delivered| == MAX_MESSAGES && net.sender.wire[i].part.msg <= MAX_FLIGHT {
      StaleAfterLast(net, i);
      assert false;
    }
  }

  lemma SameRingGot(net: Net, s: State)
    requires s == net.receiver.(window := s.window)
    ensures Further(net, net.(receiver := s))
  {
    forall j: nat | Got(net, j) ensures Got(net.(receiver := s), j) {
      var q := net.sender.wire[j].part;
      forall x: nat | q.off <= x < q.off + q.len ensures Has(s, q.msg, x) {
        assert Has(net.receiver, q.msg, x);
      }
    }
  }

  lemma OnlyRing(s: State, hdr: Header, body: seq<byte>, maxLen: nat)
    requires |s.slots| == MAX_FLIGHT
    ensures AcceptFragment(s, hdr, body, maxLen).0 == s.(slots := AcceptFragment(s, hdr, body, maxLen).0.slots)
  {
  }

  lemma ReadyAgain(net: Net, w: Window)
    requires net.Valid() && |net.sender.queued| <= MAX_MESSAGES
    ensures var net1 := net.(receiver := net.receiver.(window := w));
            net1.receiver.Valid() && net1.InStep()
  {
    hide Sending.Valid, Net.AllCame, Net.Agrees;
    WindowKeepsValid(net.receiver, w);
    SameAgreement(net, net.(receiver := net.receiver.(window := w)));
  }

  lemma PieceIsGot(net: Net, s: State, s': State, i: nat, p: Piece)
    requires i < |net.sender.wire| && net.sender.wire[i].part.Part?
    requires p.hdr.seqNo == net.sender.wire[i].part.msg
    requires p.hdr.fragOff == net.sender.wire[i].part.off && p.hdr.fragLen == net.sender.wire[i].part.len
    requires s == net.receiver.(window := s.window) && s' == s.(slots := s'.slots) && Holds(s', p.hdr.seqNo)
    requires forall k | Holds(s, k) :: Holds(s', k)
    requires forall k, x | Has(s, k, x) || Covered([p], k, x) :: Has(s', k, x)
    ensures Further(net, net.(receiver := s')) && Got(net.(receiver := s'), i)
  {
    forall x: nat | p.hdr.fragOff <= x < p.hdr.fragOff + p.hdr.fragLen ensures Has(s', p.hdr.seqNo, x) {
      assert [p][0] == p;
      assert Covered([p], p.hdr.seqNo, x);
    }
    forall j: nat | Got(net, j) ensures Got(net.(receiver := s'), j) {
      var q := net.sender.wire[j].part;
      assert Holds(s, q.msg);
      forall x: nat | q.off <= x < q.off + q.len ensures Has(s', q.msg, x) {
        assert Has(net.receiver, q.msg, x);
        assert Has(s, q.msg, x);
      }
    }
  }

  // ChangeCipherSpec

  /** A sealed ChangeCipherSpec that arrives before the first key change becomes pending, and is taken once. */
  lemma CcsTaken(net: Net, i: nat, maxLen: nat)
    requires net.Valid() && net.receiver.nullCipher && !net.receiver.hasCcs
    requires i < |net.sender.wire| && net.sender.wire[i].part == NoPart
    requires net.sender.wire[i].epoch == net.receiver.keyChanges
    requires !net.receiver.window.ShouldDiscard(WireNumber(net.sender.wire[i]))
    ensures |net.receiver.slots| == MAX_FLIGHT
    ensures var r := AsRecord(net.sender.wire[i]);
            var taken := net.receiver.(window := net.receiver.window.Record(WireNumber(net.sender.wire[i])));
            && net.Authentic(r)
            && OpenHandshake(net.receiver, r, maxLen) == (taken.(hasCcs := true), Success)
            && OpenChangeCipherSpec(net.receiver, r, maxLen) == (taken, Success)
            && forall any: Record | any.WellFormed() ::
                 OpenChangeCipherSpec(taken.(hasCcs := true), any, maxLen) == (taken, Success)
  {
    hide BigEndian, ToBigEndian, WireNumber, Window.ShouldDiscard, Window.Record, Net.InStep, Net.AllCame;
    var rec := net.sender.wire[i];
    assert rec.Genuine(net.sender.queued) && rec.number < NUMBER_LIMIT;
    SequenceOf(rec);
    assert net.Opens(rec, AsRecord(rec));
  }
}
