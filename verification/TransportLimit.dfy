/**
  * How far the delivery theorem carries: message numbers are 16 bits wide and wrap, so that message 65,536 bears
  * the number of message 0 and is taken for it by a receiver that has seen none of those before.
  */
module TransportLimit {
  import opened Bytes
  import opened HandshakeFragment
  import opened Reassembly
  import opened ReplayWindow
  import opened ReceiverSpec
  import opened SenderSpec
  import opened Sending
  import opened Transport

  /** Every message but the last is of type 0; none has a body. */
  function MessageNo(k: nat): Message {
    Message(if k < MAX_MESSAGES then 0 else 1, [])
  }

  function Messages(k: nat): (ms: seq<Message>)
    ensures |ms| == k
    ensures forall i | 0 <= i < k :: ms[i] == MessageNo(i)
  {
    if k == 0 then [] else Messages(k - 1) + [MessageNo(k - 1)]
  }

  function Whole(k: nat): seq<byte> {
    Serialize(WholeHeader(MessageNo(k), k), [])
  }

  /** The one fragment of message number k, in record number k */
  function FragmentNo(k: nat): Sealed {
    Sealed(RT_HANDSHAKE, 0, k, Whole(k), 25, Part(k, 0, 0))
  }

  function Fragments(k: nat): (recs: seq<Sealed>)
    ensures |recs| == k
  {
    if k == 0 then [] else Fragments(k - 1) + [FragmentNo(k - 1)]
  }

  /** The sender when k flights of one message each have been sent in full */
  function SenderAfter(k: nat): Sending {
    Sending(Messages(k), if k == 0 then [] else [Outgoing(Whole(k - 1), 0, false)], if k == 0 then [] else [k - 1],
            k > 0, 0, k, 0, Fragments(k))
  }

  /** None of them has reached the receiver. */
  function NetAfter(k: nat): Net {
    Net(SenderAfter(k), INITIAL, [])
  }

  function Round(k: nat): seq<Event> {
    [Queue(MessageNo(k)), Seal(0, FragmentNo(k)), FlushFlight]
  }

  function Rounds(k: nat): seq<Event> {
    if k == 0 then [] else Rounds(k - 1) + Round(k - 1)
  }

  lemma FragmentIsGenuine(k: nat)
    ensures FragmentNo(k).Genuine(Messages(k + 1))
  {
    hide Serialize;
    assert Messages(k + 1)[k] == MessageNo(k);
  }

  /** The sender between queueing and sealing message k */
  function Sealable(k: nat): Sending {
    SenderAfter(k).(queued := Messages(k + 1), flight := [Outgoing(Whole(k), 0, false)], numbers := [k], complete := false)
  }

  lemma RoundRuns(k: nat)
    requires k <= MAX_MESSAGES
    ensures IsRun(NetAfter(k), Round(k), NetAfter(k + 1))
    ensures NetAfter(k).Enabled(Queue(MessageNo(k))) && NetAfter(k).After(Queue(MessageNo(k))).sender == Sealable(k)
    ensures Sealable(k).CanSeal(0, FragmentNo(k)) && Sealable(k).Seal(FragmentNo(k)) == SenderAfter(k + 1).(complete := false)
  {
    hide Serialize, Messages, Fragments;
    assert SenderAfter(k).QueueMessage(MessageNo(k)) == Sealable(k) by { MessagesStep(k); }
    FragmentIsGenuine(k);
    assert Sealable(k).Seal(FragmentNo(k)) == SenderAfter(k + 1).(complete := false) by { FragmentsStep(k); }
    var n1 := NetAfter(k).(sender := Sealable(k));
    var n2 := NetAfter(k + 1).(sender := SenderAfter(k + 1).(complete := false));
    assert n1.After(Seal(0, FragmentNo(k))) == n2 && n2.After(FlushFlight) == NetAfter(k + 1);
    assert IsRun(NetAfter(k + 1), [], NetAfter(k + 1));
    assert IsRun(n2, [FlushFlight], NetAfter(k + 1));
    assert IsRun(n1, [Seal(0, FragmentNo(k)), FlushFlight], NetAfter(k + 1)) by {
      assert [Seal(0, FragmentNo(k)), FlushFlight][1..] == [FlushFlight];
    }
    assert Round(k)[1..] == [Seal(0, FragmentNo(k)), FlushFlight];
  }

  lemma MessagesStep(k: nat)
    ensures Messages(k + 1) == Messages(k) + [MessageNo(k)]
  {
  }

  lemma FragmentsStep(k: nat)
    ensures Fragments(k + 1) == Fragments(k) + [FragmentNo(k)]
  {
  }

  lemma {:induction false} RunAppend(a: Net, es: seq<Event>, b: Net, fs: seq<Event>, c: Net)
    requires IsRun(a, es, b) && IsRun(b, fs, c)
    ensures IsRun(a, es + fs, c)
    decreases |es|
  {
    hide Net.After, Net.Enabled;
    if es == [] {
      assert es + fs == fs;
    } else {
      RunAppend(a.After(es[0]), es[1..], b, fs, c);
      assert (es + fs)[1..] == es[1..] + fs;
    }
  }

  lemma {:induction false} RoundsRun(k: nat)
    requires k <= MAX_MESSAGES + 1
    ensures IsRun(START, Rounds(k), NetAfter(k))
  {
    hide Round, IsRun;
    if k == 0 {
      assert NetAfter(0) == START;
      assert IsRun(START, [], START) by { NoEvents(START); }
    } else {
      RoundsRun(k - 1);
      RoundRuns(k - 1);
      RunAppend(START, Rounds(k - 1), NetAfter(k - 1), Round(k - 1), NetAfter(k));
    }
  }

  lemma NoEvents(net: Net)
    ensures IsRun(net, [], net)
  {
  }

  // The record of message 65,536

  function LastRecord(): Record {
    Record(RT_HANDSHAKE, true, [0, 0, 0, 0, 0, 1, 0, 0], Some(Whole(MAX_MESSAGES)))
  }

  lemma LastNumber()
    ensures BigEndian(LastRecord().sequence) == MAX_MESSAGES
  {
    hide BigEndian;
    var zeros: seq<byte> := [0, 0, 0, 0, 0];
    BigEndianZeros(zeros);
    BigEndianSnoc(zeros, 1);
    BigEndianSnoc(zeros + [1], 0);
    BigEndianSnoc(zeros + [1] + [0], 0);
    assert LastRecord().sequence == zeros + [1] + [0] + [0];
  }

  /** Message 65,536 where message 0 belongs, complete from the start for it has no bytes */
  function Waiting(): State {
    INITIAL.(window := EMPTY.Record(MAX_MESSAGES), slots := EMPTY_RING[0 := Some(Incoming(1, 0, 0, map[], {}))])
  }

  lemma TakenForMessage0()
    ensures OpenHandshake(INITIAL, LastRecord(), 0) == (Waiting(), Success)
  {
    hide ParseFragment, Serialize, BigEndian, Window.Record, AcceptFragments;
    LastNumber();
    var hdr := WholeHeader(MessageNo(MAX_MESSAGES), MAX_MESSAGES);
    var s1 := INITIAL.(window := EMPTY.Record(MAX_MESSAGES));
    ParseSerialize(hdr, [], []);
    assert Whole(MAX_MESSAGES) + [] == Whole(MAX_MESSAGES);
    assert |Whole(MAX_MESSAGES)| <= MAX_PLAIN_LENGTH by { FieldsAt(hdr, []); }
    assert OpenRecord(INITIAL, LastRecord()) == (s1, Success);
    OneFragment(s1, Whole(MAX_MESSAGES), 0);
    assert AcceptFragment(s1, hdr, [], 0) == (Waiting(), true);
  }

  /**
    * A run that queues 65,537 messages, one flight each. All records but that of the last are lost; that one is
    * taken for message 0 and handed out first, though message 0 is another.
    */
  lemma LostFlights() returns (events: seq<Event>, end: Net)
    ensures IsRun(START, events, end) && |end.sender.queued| == MAX_MESSAGES + 1
    ensures end.delivered == [MessageNo(MAX_MESSAGES)] && end.sender.queued[0] == MessageNo(0)
    ensures !(end.delivered <= end.sender.queued)
  {
    hide IsRun, Round, Rounds, OpenHandshake, SenderAfter, Whole, EMPTY_RING;
    var k := MAX_MESSAGES + 1;
    RoundsRun(k);
    TakenForMessage0();
    var net := NetAfter(k);
    LastIsOnWire();
    end := net.(receiver := OneOn(), delivered := [MessageNo(MAX_MESSAGES)]);
    HandedOut(net);
    events := Rounds(k) + [Arrive(LastRecord(), 0), Get, Next];
    RunAppend(START, Rounds(k), net, [Arrive(LastRecord(), 0), Get, Next], end);
    assert net.sender.queued == Messages(k) by { QueuedIs(k); }
  }

  lemma QueuedIs(k: nat)
    ensures SenderAfter(k).queued == Messages(k) && SenderAfter(k).wire == Fragments(k)
  {
  }

  lemma LastIsOnWire()
    ensures NetAfter(MAX_MESSAGES + 1).Authentic(LastRecord())
  {
    hide Serialize, BigEndian;
    LastNumber();
    FragmentsStep(MAX_MESSAGES);
    assert NetAfter(MAX_MESSAGES + 1).Opens(Fragments(MAX_MESSAGES + 1)[MAX_MESSAGES], LastRecord());
  }

  /** The receiver when it has handed that message out */
  function OneOn(): State {
    INITIAL.(readSeq := 1, window := EMPTY.Record(MAX_MESSAGES))
  }

  lemma HandedOut(net: Net)
    requires net.receiver == INITIAL && net.delivered == [] && net.Authentic(LastRecord())
    requires OpenHandshake(INITIAL, LastRecord(), 0).0 == Waiting()
    ensures IsRun(net, [Arrive(LastRecord(), 0), Get, Next],
                  net.(receiver := OneOn(), delivered := [MessageNo(MAX_MESSAGES)]))
  {
    hide OpenHandshake, Window.Record, Whole, Net.Authentic;
    var n1 := net.(receiver := Waiting());
    var n2 := net.(receiver := Waiting().(hasMessage := true));
    var n3 := net.(receiver := OneOn(), delivered := [MessageNo(MAX_MESSAGES)]);
    assert net.After(Arrive(LastRecord(), 0)) == n1;
    assert n1.After(Get) == n2;
    assert EMPTY_RING[0 := Some(Incoming(1, 0, 0, map[], {}))][0 := None] == EMPTY_RING;
    assert n2.receiver.Current() == Some(Incoming(1, 0, 0, map[], {}));
    assert Incoming(1, 0, 0, map[], {}).Body() == [];
    assert [] + [MessageNo(MAX_MESSAGES)] == [MessageNo(MAX_MESSAGES)];
    assert n2.After(Next) == n3;
    assert IsRun(n3, [], n3);
    assert IsRun(n2, [Next], n3);
    assert IsRun(n1, [Get, Next], n3) by { assert [Get, Next][1..] == [Next]; }
    assert [Arrive(LastRecord(), 0), Get, Next][1..] == [Get, Next];
  }

  /**
    * What is handed out is a prefix of what was queued in every run that queues at most n messages, exactly when
    * n does not exceed 65,536.
    */
  lemma DeliveryLimit(n: nat)
    ensures (forall events, end | IsRun(START, events, end) && |end.sender.queued| <= n :: end.delivered <= end.sender.queued)
            <==> n <= MAX_MESSAGES
  {
    hide IsRun;
    if n <= MAX_MESSAGES {
      forall events, end | IsRun(START, events, end) && |end.sender.queued| <= n
        ensures end.delivered <= end.sender.queued
      {
        DeliveredIsPrefix(events, end);
      }
    } else {
      var events, end := LostFlights();
    }
  }
}
