/**
  * Sender, network and receiver of a DTLS handshake together. The network may lose, repeat, reorder
  * and forge records; a forged record never opens, and a genuine one only as what it was sealed as: under
  * its key, with its epoch and number. What the receiver hands out is what the sender queued: the same
  * messages, in order, each once.
  */
module Transport {
  import opened Bytes
  import opened HandshakeFragment
  import opened Reassembly
  import opened ReplayWindow
  import opened ReceiverSpec
  import opened SenderSpec
  import opened Sending

  /** The numbers on the wire are 16 bits wide, so a connection has this many of them. */
  const MAX_MESSAGES: nat := 0x1_0000

  datatype Event =
    | Queue(m: Message)
    | QueueCcs
    | FlushFlight
    | ClearFlight
    | Seal(at: nat, rec: Sealed)
    | UseNumber(previous: bool)
    | ChangeWriteKey
    | Arrive(record: Record, maxLen: nat)
    | ArriveForCcs(record: Record, maxLen: nat)
    | Get
    | Next
    | ChangeReadKey(nullCipher: bool)

  datatype Net = Net(sender: Sending, receiver: State, delivered: seq<Message>) {

    /** `r` is the sealed record `rec`, opened with the key it was sealed with. */
    predicate Opens(rec: Sealed, r: Record)
      requires r.Record? && r.WellFormed()
    {
      && r.typ == rec.typ && r.plaintext == Some(rec.payload)
      && BigEndian(r.sequence) == WireNumber(rec)
      && rec.epoch == receiver.keyChanges
    }

    /** A record that opens as part of a handshake was sealed as such. Records of other types are left free. */
    ghost predicate Authentic(r: Record)
      requires r.WellFormed()
    {
      r.Record? && r.plaintext.Some? && (r.typ == RT_HANDSHAKE || r.typ == RT_CHANGE_CIPHER_SPEC) ==>
        exists i | 0 <= i < |sender.wire| :: Opens(sender.wire[i], r)
    }

    /** An event that can happen now. */
    ghost predicate Enabled(e: Event)
      requires |receiver.slots| == MAX_FLIGHT
    {
      match e
      case Queue(m) => sender.HasRoom() && |m.body| < 0x100_0000
      case QueueCcs => sender.HasRoom()
      case FlushFlight => true
      case ClearFlight => true
      case Seal(at, rec) => sender.CanSeal(at, rec)
      case UseNumber(previous) => previous ==> sender.epoch >= 1
      case ChangeWriteKey => true
      case Arrive(r, _) => r.WellFormed() && Authentic(r)
      case ArriveForCcs(r, _) => r.WellFormed() && Authentic(r)
      case Get => true
      case Next => receiver.hasMessage && receiver.CurrentComplete()
      case ChangeReadKey(_) => true
    }

    ghost function After(e: Event): Net
      requires |receiver.slots| == MAX_FLIGHT && Enabled(e)
    {
      match e
      case Queue(m) => this.(sender := sender.QueueMessage(m))
      case QueueCcs => this.(sender := sender.QueueCcs())
      case FlushFlight => this.(sender := sender.(complete := true))
      case ClearFlight => this.(sender := sender.Cleared())
      case Seal(_, rec) => this.(sender := sender.Seal(rec))
      case UseNumber(previous) => this.(sender := sender.UseNumber(previous))
      case ChangeWriteKey => this.(sender := sender.NextKey())
      case Arrive(r, maxLen) => this.(receiver := OpenHandshake(receiver, r, maxLen).0)
      case ArriveForCcs(r, maxLen) => this.(receiver := OpenChangeCipherSpec(receiver, r, maxLen).0)
      case Get => this.(receiver := GetMessage(receiver).0)
      case Next =>
        this.(receiver := NextMessage(receiver), delivered := delivered + [GetMessage(receiver).1.value])
      case ChangeReadKey(n) => this.(receiver := SetReadState(receiver, n).0)
    }

    ghost predicate Valid() {
      && receiver.Valid()
      && sender.Valid()
      && (|sender.queued| <= MAX_MESSAGES ==> InStep() && AllCame())
    }

    /**
      * What was handed out is a prefix of what was queued, and every message being assembled agrees with the
      * queued message of its number, wherever bytes are in. Once there are no more numbers the ring is empty.
      */
    ghost predicate InStep() {
      && |delivered| <= |sender.queued|
      && delivered == sender.queued[..|delivered|]
      && receiver.readSeq == |delivered| % 0x1_0000
      && |receiver.slots| == MAX_FLIGHT
      && forall i | 0 <= i < MAX_FLIGHT && receiver.slots[i].Some? ::
           |delivered| < MAX_MESSAGES && Agrees(receiver.slots[i].value)
    }

    ghost predicate Agrees(m: Incoming) {
      && m.seqNo < |sender.queued|
      && m.typ == sender.queued[m.seqNo].typ
      && m.msgLen == |sender.queued[m.seqNo].body|
      && forall k <- m.content :: k < m.msgLen && m.content[k] == sender.queued[m.seqNo].body[k]
    }

    /** A record of message k has been opened, under the current key not beyond the maximum of the window. */
    ghost predicate Came(k: nat) {
      exists j | 0 <= j < |sender.wire| :: CameIn(sender.wire[j], k)
    }

    predicate CameIn(rec: Sealed, k: nat) {
      && rec.part.Part? && rec.part.msg == k
      && rec.epoch <= receiver.keyChanges
      && (rec.epoch == receiver.keyChanges ==> WireNumber(rec) <= receiver.window.maxSeq)
    }

    ghost predicate AllCame() {
      && (forall k: nat | k < |delivered| :: Came(k))
      && forall m <- receiver.slots | m.Some? :: Came(m.value.seqNo)
    }
  }

  const START := Net(Sending([], [], [], false, 0, 0, 0, []), INITIAL, [])

  /** A run: events in the order they happen, each possible when it does. */
  ghost predicate IsRun(net: Net, events: seq<Event>, end: Net)
    decreases |events|
  {
    if events == [] then net == end
    else |net.receiver.slots| == MAX_FLIGHT && net.Enabled(events[0]) && IsRun(net.After(events[0]), events[1..], end)
  }

  // What a fragment does to the ring

  /** A genuine payload is one fragment of the queued message of its number. */
  lemma ParseGenuine(payload: seq<byte>, m: Message, seqNo: nat, off: nat, len: nat)
    requires IsFragment(payload, m, seqNo, off, len)
    ensures ParseFragment(payload)
            == Parsed(Header(m.typ, |m.body|, seqNo % 0x1_0000, off, len), m.body[off..off + len], [])
  {
    hide Serialize, ParseFragment;
    ParseSerialize(Header(m.typ, |m.body|, seqNo % 0x1_0000, off, len), m.body[off..off + len], []);
    assert payload + [] == payload;
  }

  /** `hdr` and `body` are a fragment of a queued message. */
  ghost predicate PartOf(queued: seq<Message>, hdr: Header, body: seq<byte>) {
    && hdr.seqNo < |queued|
    && hdr.typ == queued[hdr.seqNo].typ
    && hdr.msgLen == |queued[hdr.seqNo].body|
    && hdr.fragLen == |body| && hdr.fragOff + hdr.fragLen <= hdr.msgLen
    && body == queued[hdr.seqNo].body[hdr.fragOff..hdr.fragOff + hdr.fragLen]
  }

  /** Bytes of a queued message put in their place leave the message in agreement. */
  lemma PutAgrees(net: Net, m: Incoming, hdr: Header, body: seq<byte>, epoch: nat)
    requires net.Agrees(m) && PartOf(net.sender.queued, hdr, body) && m.seqNo == hdr.seqNo
    ensures net.Agrees(m.Put(hdr.fragOff, body, epoch))
  {
  }

  lemma StartsInAgreement(net: Net, hdr: Header, body: seq<byte>)
    requires PartOf(net.sender.queued, hdr, body)
    ensures net.Agrees(Incoming(hdr.typ, hdr.seqNo, hdr.msgLen, map[], {}))
  {
  }

  /** Agreement depends on the queue alone. */
  lemma SameAgreement(net: Net, net': Net)
    requires net.sender.queued == net'.sender.queued
    ensures forall m :: net'.Agrees(m) <==> net.Agrees(m)
  {
  }

  /** A fragment of a message that has not been handed out keeps the ring in step; it touches its own slot only. */
  lemma AcceptKeepsStep(net: Net, hdr: Header, body: seq<byte>, maxLen: nat)
    requires net.receiver.Valid() && net.InStep() && |net.delivered| < MAX_MESSAGES
    requires PartOf(net.sender.queued, hdr, body) && hdr.Fits()
    ensures var s' := AcceptFragment(net.receiver, hdr, body, maxLen).0;
            && s'.Valid() && net.(receiver := s').InStep()
            && s'.keyChanges == net.receiver.keyChanges && s'.window == net.receiver.window
            && forall i | 0 <= i < MAX_FLIGHT && s'.slots[i].Some? ::
                 s'.slots[i].value.seqNo == hdr.seqNo || s'.slots[i] == net.receiver.slots[i]
  {
    hide Net.Agrees, State.SlotOk, Incoming.Put, Incoming.Complete;
    var s, s' := net.receiver, AcceptFragment(net.receiver, hdr, body, maxLen).0;
    AcceptFragmentKeepsValid(s, hdr, body, maxLen);
    var idx := hdr.seqNo % MAX_FLIGHT;
    if s' != s {
      var m := if s.slots[idx].Some? then s.slots[idx].value
               else Incoming(hdr.typ, hdr.seqNo, hdr.msgLen, map[], {});
      StartsInAgreement(net, hdr, body);
      if s.slots[idx].Some? {
        SlotMatches(s, hdr);
      }
      PutAgrees(net, m, hdr, body, s.keyChanges);
      assert s'.slots[idx] == Some(m) || s'.slots[idx] == Some(m.Put(hdr.fragOff, body, s.keyChanges));
      assert m.Put(hdr.fragOff, body, s.keyChanges).seqNo == m.seqNo by { PutNumber(m, hdr.fragOff, body, s.keyChanges); }
      assert forall i | 0 <= i < MAX_FLIGHT && i != idx :: s'.slots[i] == s.slots[i];
    }
    SameAgreement(net, net.(receiver := s'));
  }

  lemma PutNumber(m: Incoming, off: nat, body: seq<byte>, epoch: nat)
    ensures m.Put(off, body, epoch).seqNo == m.seqNo
  {
  }

  // What has come stays come

  /** The wire has only grown, and the window only risen under the same key. */
  ghost predicate Later(net: Net, net': Net) {
    && net.sender.wire <= net'.sender.wire
    && (net.receiver.keyChanges < net'.receiver.keyChanges
        || (net.receiver.keyChanges == net'.receiver.keyChanges
            && net.receiver.window.maxSeq <= net'.receiver.window.maxSeq))
  }

  lemma CameStays(net: Net, net': Net)
    requires Later(net, net')
    ensures forall k | net.Came(k) :: net'.Came(k)
  {
    hide WireNumber;
    forall k | net.Came(k) ensures net'.Came(k) {
      var j :| 0 <= j < |net.sender.wire| && net.CameIn(net.sender.wire[j], k);
      assert net'.sender.wire[j] == net.sender.wire[j];
      assert net'.CameIn(net'.sender.wire[j], k);
    }
  }

  /** A change of sender that keeps the queue, and of receiver that keeps ring and read position, keeps the rest. */
  lemma SameRingKeepsStep(net: Net, net': Net)
    requires net.InStep() && net.AllCame() && Later(net, net')
    requires net'.sender.queued == net.sender.queued && net'.delivered == net.delivered
    requires net'.receiver.slots == net.receiver.slots && net'.receiver.readSeq == net.receiver.readSeq
    ensures net'.InStep() && net'.AllCame()
  {
    hide Net.Agrees, Net.Came;
    SameAgreement(net, net');
    CameStays(net, net');
  }

  lemma OpenRecordOnlyWindow(s: State, r: Record)
    requires r.WellFormed()
    ensures var (s', outcome) := OpenRecord(s, r);
            && s' == s.(window := s'.window) && s.window.maxSeq <= s'.window.maxSeq
            && (outcome == Success ==>
                  && r.Record? && r.plaintext.Some?
                  && !s.window.ShouldDiscard(BigEndian(r.sequence))
                  && BigEndian(r.sequence) <= s'.window.maxSeq)
  {
    hide BigEndian, Window.ShouldDiscard;
    if r.Record? {
      RecordRaises(s.window, BigEndian(r.sequence));
    }
  }

  lemma RecordRaises(w: Window, n: nat)
    ensures w.maxSeq <= w.Record(n).maxSeq && n <= w.Record(n).maxSeq
  {
  }

  lemma WindowKeepsValid(s: State, w: Window)
    requires s.Valid()
    ensures s.(window := w).Valid()
  {
    forall i | 0 <= i < MAX_FLIGHT && s.slots[i].Some? ensures s.(window := w).SlotOk(i) {
      assert s.SlotOk(i);
    }
  }

  lemma CcsFlagKeepsValid(s: State, flag: bool)
    requires s.Valid()
    ensures s.(hasCcs := flag).Valid()
  {
    forall i | 0 <= i < MAX_FLIGHT && s.slots[i].Some? ensures s.(hasCcs := flag).SlotOk(i) {
      assert s.SlotOk(i);
    }
  }

  // After the last number

  /**
    * From a record of message m on there is one of message m + 7t, opened under the same key, with a number
    * at least t higher: a message is sealed only while fewer than seven others are queued after it.
    */
  lemma {:induction false} Chain(net: Net, i: nat, t: nat) returns (j: nat)
    requires net.sender.Valid() && net.AllCame()
    requires i < |net.sender.wire| && net.sender.wire[i].part.Part? && net.sender.wire[i].epoch == net.receiver.keyChanges
    requires net.sender.wire[i].part.msg + MAX_FLIGHT * t < |net.delivered|
    ensures j < |net.sender.wire| && net.sender.wire[j].part.Part?
    ensures net.sender.wire[j].part.msg == net.sender.wire[i].part.msg + MAX_FLIGHT * t
    ensures net.sender.wire[j].epoch == net.receiver.keyChanges
    ensures net.sender.wire[i].number + t <= net.sender.wire[j].number
    ensures t > 0 ==> WireNumber(net.sender.wire[j]) <= net.receiver.window.maxSeq
  {
    hide AllGenuine, FlightFrom, Sending.FlightLater, WireNumber;
    if t == 0 {
      j := i;
    } else {
      var wire := net.sender.wire;
      var p := Chain(net, i, t - 1);
      var k := wire[i].part.msg + MAX_FLIGHT * t;
      assert net.Came(k);
      j :| 0 <= j < |wire| && net.CameIn(wire[j], k);
      assert wire[p].part.msg + MAX_FLIGHT == wire[j].part.msg;
      assert p < j;
    }
  }

  /** When all numbers have been used and handed out, the records of the first messages are below the window. */
  lemma StaleAfterLast(net: Net, i: nat)
    requires net.sender.Valid() && net.AllCame() && |net.delivered| == MAX_MESSAGES
    requires i < |net.sender.wire| && net.sender.wire[i].part.Part? && net.sender.wire[i].epoch == net.receiver.keyChanges
    requires net.sender.wire[i].part.msg <= MAX_FLIGHT
    ensures net.receiver.window.ShouldDiscard(WireNumber(net.sender.wire[i]))
  {
    hide Sending.Valid, Net.AllCame;
    var j := Chain(net, i, WINDOW_SIZE);
  }

  // The invariant is kept by every event

  lemma GenuineIsPart(queued: seq<Message>, rec: Sealed)
    requires rec.Genuine(queued) && rec.typ == RT_HANDSHAKE && |queued| <= MAX_MESSAGES
    ensures var p := ParseFragment(rec.payload);
            && p.Parsed? && p.rest == [] && PartOf(queued, p.hdr, p.body) && p.hdr.Fits()
            && rec.part.Part? && p.hdr.seqNo == rec.part.msg
            && p.hdr.fragOff == rec.part.off && p.hdr.fragLen == rec.part.len
  {
    hide ParseFragment, Serialize;
    ParseGenuine(rec.payload, queued[rec.part.msg], rec.part.msg, rec.part.off, rec.part.len);
  }

  /** The record `wire[i]` has been opened, and is not an old one after the last number. */
  ghost predicate Opened(net: Net, i: nat) {
    && i < |net.sender.wire| && net.sender.wire[i].typ == RT_HANDSHAKE
    && net.sender.wire[i].epoch == net.receiver.keyChanges
    && WireNumber(net.sender.wire[i]) <= net.receiver.window.maxSeq
    && (|net.delivered| == MAX_MESSAGES && net.sender.wire[i].part.Part? ==> net.sender.wire[i].part.msg > MAX_FLIGHT)
  }

  lemma AcceptPayloadKeepsValid(net: Net, i: nat, maxLen: nat)
    requires net.Valid() && Opened(net, i)
    ensures net.(receiver := AcceptFragments(net.receiver, net.sender.wire[i].payload, maxLen).0).Valid()
  {
    hide ParseFragment, IsFragment, State.SlotOk, AcceptFragment, AcceptFragments, Net.Agrees, Net.Came, WireNumber;
    var rec, s := net.sender.wire[i], net.receiver;
    AcceptFragmentsKeepValid(s, rec.payload, maxLen);
    if |net.sender.queued| <= MAX_MESSAGES {
      assert rec.Genuine(net.sender.queued);
      GenuineIsPart(net.sender.queued, rec);
      OneFragment(s, rec.payload, maxLen);
      var p := ParseFragment(rec.payload);
      var net' := net.(receiver := AcceptFragment(s, p.hdr, p.body, maxLen).0);
      if |net.delivered| == MAX_MESSAGES {
        BeyondRingUntouched(s, p.hdr, p.body, maxLen);
      } else {
        AcceptKeepsStep(net, p.hdr, p.body, maxLen);
        assert net.Came(rec.part.msg) by { CameHere(net, i); }
        CameStays(net, net');
      }
    }
  }

  lemma CameHere(net: Net, i: nat)
    requires Opened(net, i) && net.sender.wire[i].part.Part?
    ensures net.Came(net.sender.wire[i].part.msg)
  {
    assert net.CameIn(net.sender.wire[i], net.sender.wire[i].part.msg);
  }

  lemma ArriveKeepsValid(net: Net, r: Record, maxLen: nat)
    requires net.Valid() && r.WellFormed() && net.Authentic(r)
    ensures net.(receiver := OpenHandshake(net.receiver, r, maxLen).0).Valid()
  {
    hide OpenRecord, AcceptFragments, State.Valid, Sending.Valid, Net.InStep, Net.AllCame, WireNumber, BigEndian;
    var (s1, outcome) := OpenRecord(net.receiver, r);
    var net1 := net.(receiver := s1);
    OpenRecordOnlyWindow(net.receiver, r);
    WindowKeepsValid(net.receiver, s1.window);
    if |net.sender.queued| <= MAX_MESSAGES {
      SameRingKeepsStep(net, net1);
    }
    if outcome == Success && r.typ == RT_HANDSHAKE {
      var i :| 0 <= i < |net.sender.wire| && net.Opens(net.sender.wire[i], r);
      if |net.sender.queued| <= MAX_MESSAGES && |net.delivered| == MAX_MESSAGES && net.sender.wire[i].part.Part?
         && net.sender.wire[i].part.msg <= MAX_FLIGHT {
        StaleAfterLast(net, i);
        assert false;
      }
      if |net.sender.queued| <= MAX_MESSAGES {
        AcceptPayloadKeepsValid(net1, i, maxLen);
      } else {
        AcceptFragmentsKeepValid(s1, r.plaintext.value, maxLen);
      }
    } else if outcome == Success && r.typ == RT_CHANGE_CIPHER_SPEC {
      CcsFlagKeepsValid(s1, true);
      if |net.sender.queued| <= MAX_MESSAGES {
        SameRingKeepsStep(net1, net1.(receiver := s1.(hasCcs := true)));
      }
    }
  }

  lemma ArriveForCcsKeepsValid(net: Net, r: Record, maxLen: nat)
    requires net.Valid() && r.WellFormed() && net.Authentic(r)
    ensures net.(receiver := OpenChangeCipherSpec(net.receiver, r, maxLen).0).Valid()
  {
    hide OpenHandshake, State.SlotOk, Sending.Valid, Net.InStep, Net.AllCame;
    var s1 := if net.receiver.hasCcs then net.receiver else OpenHandshake(net.receiver, r, maxLen).0;
    var net1 := net.(receiver := s1);
    ArriveKeepsValid(net, r, maxLen);
    assert net1.Valid();
    CcsFlagKeepsValid(s1, false);
    if |net.sender.queued| <= MAX_MESSAGES {
      SameRingKeepsStep(net1, net1.(receiver := s1.(hasCcs := false)));
    }
  }

  lemma GetKeepsValid(net: Net)
    requires net.Valid()
    ensures net.(receiver := GetMessage(net.receiver).0).Valid()
  {
    hide Sending.Valid, Net.InStep, Net.AllCame, Incoming.Body;
    var s, s' := net.receiver, GetMessage(net.receiver).0;
    forall i | 0 <= i < MAX_FLIGHT && s'.slots[i].Some? ensures s'.SlotOk(i) {
      assert s.SlotOk(i);
    }
    if |net.sender.queued| <= MAX_MESSAGES {
      SameRingKeepsStep(net, net.(receiver := s'));
    }
  }

  /** What is handed out next is the next message queued. */
  lemma NextIsNextQueued(net: Net)
    requires net.receiver.Valid() && net.InStep() && net.receiver.CurrentComplete()
    ensures |net.delivered| < |net.sender.queued| && |net.delivered| < MAX_MESSAGES
    ensures net.receiver.Current().value.seqNo == |net.delivered|
    ensures GetMessage(net.receiver).1 == Some(net.sender.queued[|net.delivered|])
  {
    var idx := net.receiver.readSeq % MAX_FLIGHT;
    var m := net.receiver.Current().value;
    assert net.Agrees(m) && net.receiver.SlotOk(idx);
    assert m.seqNo == |net.delivered|;
    assert m.Body() == net.sender.queued[m.seqNo].body;
  }

  lemma NextKeepsValid(net: Net)
    requires net.Valid() && net.receiver.hasMessage && net.receiver.CurrentComplete()
    ensures net.After(Next).Valid()
  {
    hide Sending.Valid, Net.Agrees, Net.Came, Incoming.Body, Incoming.Complete;
    NextMessageKeepsValid(net.receiver);
    if |net.sender.queued| <= MAX_MESSAGES {
      var net' := net.After(Next);
      NextIsNextQueued(net);
      SameAgreement(net, net');
      CameStays(net, net');
      assert Some(net.receiver.Current().value) in net.receiver.slots;
      forall i | 0 <= i < MAX_FLIGHT && net'.receiver.slots[i].Some? ensures |net'.delivered| < MAX_MESSAGES {
        assert net.receiver.SlotOk(i);
      }
    }
  }

  lemma ChangeReadKeyKeepsValid(net: Net, nullCipher: bool)
    requires net.Valid()
    ensures net.After(ChangeReadKey(nullCipher)).Valid()
  {
    hide Sending.Valid, Net.InStep, Net.AllCame, State.Valid, HasUnprocessed;
    SetReadStateKeepsValid(net.receiver, nullCipher);
    if |net.sender.queued| <= MAX_MESSAGES {
      SameRingKeepsStep(net, net.After(ChangeReadKey(nullCipher)));
    }
  }

  lemma QueueKeepsValid(net: Net, m: Message)
    requires net.Valid() && net.Enabled(Queue(m))
    ensures net.After(Queue(m)).Valid()
  {
    hide Sending.Valid, State.SlotOk, Serialize, Net.Came;
    QueueMessageKeepsValid(net.sender, m);
    var net' := net.After(Queue(m));
    CameStays(net, net');
    if |net'.sender.queued| <= MAX_MESSAGES {
      assert net.sender.queued[..|net.delivered|] == net'.sender.queued[..|net.delivered|];
      forall i: nat | i < |net.receiver.slots| && net.receiver.slots[i].Some?
        ensures net'.Agrees(net.receiver.slots[i].value)
      {
        assert net.Agrees(net.receiver.slots[i].value);
      }
    }
  }

  /** A step of the sender that queues no message */
  lemma SenderStepKeepsValid(net: Net, sender: Sending)
    requires net.Valid() && sender.Valid() && sender.queued == net.sender.queued && net.sender.wire <= sender.wire
    ensures net.(sender := sender).Valid()
  {
    hide Sending.Valid, State.Valid, Net.InStep, Net.AllCame;
    if |sender.queued| <= MAX_MESSAGES {
      SameRingKeepsStep(net, net.(sender := sender));
    }
  }

  lemma FlushKeepsValid(s: Sending)
    requires s.Valid()
    ensures s.(complete := true).Valid()
  {
    hide AllGenuine, FlightFrom, NumbersRise;
  }

  lemma StepKeepsValid(net: Net, e: Event)
    requires net.Valid() && net.receiver.Valid() && net.Enabled(e)
    ensures net.After(e).Valid()
  {
    hide Net.Valid, OpenHandshake, OpenChangeCipherSpec, GetMessage, SetReadState, Sending.Valid, Sending.QueueMessage;
    hide Sending.CanSeal;
    assert net.sender.Valid() by { PartsAreValid(net); }
    match e {
      case Queue(m) => QueueKeepsValid(net, m);
      case QueueCcs =>
        QueueCcsKeepsValid(net.sender);
        SenderStepKeepsValid(net, net.sender.QueueCcs());
      case FlushFlight =>
        FlushKeepsValid(net.sender);
        SenderStepKeepsValid(net, net.sender.(complete := true));
      case ClearFlight =>
        ClearedKeepsValid(net.sender);
        SenderStepKeepsValid(net, net.sender.Cleared());
      case Seal(at, rec) =>
        SealKeepsValid(net.sender, at, rec);
        SenderStepKeepsValid(net, net.sender.Seal(rec));
      case UseNumber(previous) =>
        UseNumberKeepsValid(net.sender, previous);
        SenderStepKeepsValid(net, net.sender.UseNumber(previous));
      case ChangeWriteKey =>
        NextKeyKeepsValid(net.sender);
        SenderStepKeepsValid(net, net.sender.NextKey());
      case Arrive(r, maxLen) => ArriveKeepsValid(net, r, maxLen);
      case ArriveForCcs(r, maxLen) => ArriveForCcsKeepsValid(net, r, maxLen);
      case Get => GetKeepsValid(net);
      case Next => NextKeepsValid(net);
      case ChangeReadKey(n) => ChangeReadKeyKeepsValid(net, n);
    }
  }

  lemma PartsAreValid(net: Net)
    requires net.Valid()
    ensures net.receiver.Valid() && net.sender.Valid()
  {
  }

  lemma StartIsValid()
    ensures START.Valid()
  {
  }

  lemma {:induction false} RunKeepsValid(net: Net, events: seq<Event>, end: Net)
    requires net.Valid() && IsRun(net, events, end)
    ensures end.Valid()
    decreases |events|
  {
    hide Net.Valid, Net.Enabled, Net.After;
    if events != [] {
      assert net.receiver.Valid() by { PartsAreValid(net); }
      StepKeepsValid(net, events[0]);
      RunKeepsValid(net.After(events[0]), events[1..], end);
    }
  }

  /** What a sender seals, whatever it is called with, is a run: see the contracts of Sender.Connection. */
  lemma {:induction false} SealingIsRun(net: Net, steps: seq<SealStep>, b: Sending) returns (events: seq<Event>)
    requires |net.receiver.slots| == MAX_FLIGHT && SealRun(net.sender, steps, b)
    ensures IsRun(net, events, net.(sender := b))
    decreases |steps|
  {
    hide Sending.CanSeal;
    if steps == [] {
      events := [];
    } else {
      var e := match steps[0] case SealStep(at, rec) => Seal(at, rec) case NumberStep(previous) => UseNumber(previous);
      var rest := SealingIsRun(net.After(e), steps[1..], b);
      events := [e] + rest;
      assert events[1..] == rest;
    }
  }

  /** Over every run: what has been handed out is a prefix of what was queued, the same messages in the same order. */
  lemma DeliveredIsPrefix(events: seq<Event>, end: Net)
    requires IsRun(START, events, end) && |end.sender.queued| <= MAX_MESSAGES
    ensures |end.delivered| <= |end.sender.queued| && end.delivered == end.sender.queued[..|end.delivered|]
  {
    hide IsRun;
    StartIsValid();
    RunKeepsValid(START, events, end);
  }

  /** Over every run: whenever get_message hands out a message, it is the next one queued. */
  lemma GetIsNextQueued(events: seq<Event>, end: Net)
    requires IsRun(START, events, end) && |end.sender.queued| <= MAX_MESSAGES
    ensures |end.receiver.slots| == MAX_FLIGHT
    ensures var m := GetMessage(end.receiver).1;
            m.Some? ==> |end.delivered| < |end.sender.queued| && m.value == end.sender.queued[|end.delivered|]
  {
    hide IsRun, Net.AllCame, Sending.Valid;
    StartIsValid();
    RunKeepsValid(START, events, end);
    if end.receiver.CurrentComplete() {
      NextIsNextQueued(end);
    }
  }

  /** Over every run: a message is handed out only when complete, and its bytes all came from one read epoch. */
  lemma DeliveredFromOneEpoch(events: seq<Event>, end: Net)
    requires IsRun(START, events, end)
    ensures |end.receiver.slots| == MAX_FLIGHT
    ensures end.receiver.hasMessage ==> end.receiver.CurrentComplete()
    ensures end.receiver.Current().Some? ==> OneEpoch(end.receiver.Current().value.epochs)
  {
    hide IsRun;
    StartIsValid();
    RunKeepsValid(START, events, end);
    assert end.receiver.Current().Some? ==> end.receiver.SlotOk(end.receiver.readSeq % MAX_FLIGHT);
  }
}
