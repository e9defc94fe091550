/**
  * A flight that gets through is delivered, and the read key can then change: the records of one pass over it, in any
  * order and any number of times, among records that were already in.
  */
module TransportFlight {
  import opened Bits
  import opened Bytes
  import opened HandshakeFragment
  import opened Reassembly
  import opened ReplayWindow
  import opened ReceiverSpec
  import opened SenderSpec
  import opened Sending
  import opened Transport
  import opened TransportProgress

  /** The arrival of records of the wire, one after the other */
  function Arrivals(wire: seq<Sealed>, order: seq<nat>, maxLen: nat): seq<Event>
    requires forall k | 0 <= k < |order| :: order[k] < |wire|
  {
    if order == [] then [] else [Arrive(AsRecord(wire[order[0]]), maxLen)] + Arrivals(wire, order[1..], maxLen)
  }

  /** A run in which no record that arrives ends the handshake */
  ghost predicate Unfailing(net: Net, events: seq<Event>)
    decreases |events|
  {
    events == [] ||
    (&& |net.receiver.slots| == MAX_FLIGHT && net.Enabled(events[0])
     && (events[0].Arrive? ==> OpenHandshake(net.receiver, events[0].record, events[0].maxLen).1 in {Success, Discard})
     && Unfailing(net.After(events[0]), events[1..]))
  }

  /**
    * Records to arrive, of old, current or later messages. The window does not come to leave any behind, nor has it one
    * that is wanted, unless that is in.
    */
  ghost predicate Timely(net: Net, order: seq<nat>, maxLen: nat, seen: set<nat>) {
    && (forall k | 0 <= k < |order| :: Tolerated(net, order[k], maxLen))
    && (forall x <- order :: Tolerated(net, x, maxLen))
    && (forall x <- order ::
          var n := WireNumber(net.sender.wire[x]);
          Max(seen) < n + WINDOW_SIZE && (n in seen && Wanted(net, x) ==> Got(net, x)))
    && forall x, y | x in order && y in order ::
         WireNumber(net.sender.wire[y]) < WireNumber(net.sender.wire[x]) + WINDOW_SIZE
  }

  lemma SameNumber(net: Net, x: nat, y: nat)
    requires net.Valid() && x < |net.sender.wire| && y < |net.sender.wire|
    requires net.sender.wire[x].epoch == net.sender.wire[y].epoch
    requires WireNumber(net.sender.wire[x]) == WireNumber(net.sender.wire[y])
    ensures x == y
  {
  }

  lemma TimelyStep(net: Net, net1: Net, order: seq<nat>, maxLen: nat, seen: set<nat>)
    requires order != [] && Timely(net, order, maxLen, seen) && net.Valid()
    requires Further(net, net1) && (Wanted(net, order[0]) ==> Got(net1, order[0]))
    ensures Tolerated(net, order[0], maxLen)
    ensures Timely(net1, order[1..], maxLen, seen + {WireNumber(net.sender.wire[order[0]])})
  {
    hide WireNumber, Net.Valid, Got;
    var n0 := WireNumber(net.sender.wire[order[0]]);
    MaxOfSum(seen, n0);
    assert order[0] in order;
    forall x | x in order[1..]
      ensures x in order && Tolerated(net1, x, maxLen)
      ensures var n := WireNumber(net.sender.wire[x]);
              Max(seen + {n0}) < n + WINDOW_SIZE && (n in seen + {n0} && Wanted(net1, x) ==> Got(net1, x))
    {
      assert x in order;
      assert Tolerated(net, x, maxLen) && Tolerated(net, order[0], maxLen);
      if WireNumber(net.sender.wire[x]) == n0 {
        SameNumber(net, x, order[0]);
      }
    }
  }

  /** All that is wanted of the records is in. */
  ghost predicate AllGot(net: Net, order: seq<nat>) {
    forall x <- order | Wanted(net, x) :: Got(net, x)
  }

  /** The arrival of one record of a timely order */
  lemma ArriveFirst(net: Net, order: seq<nat>, maxLen: nat, seen: set<nat>) returns (net1: Net, seen1: set<nat>)
    requires net.Valid() && |net.sender.queued| <= MAX_MESSAGES && order != []
    requires net.receiver.window.Represents(seen) && Timely(net, order, maxLen, seen)
    ensures order[0] < |net.sender.wire| && |net.receiver.slots| == MAX_FLIGHT
    ensures var e := Arrive(AsRecord(net.sender.wire[order[0]]), maxLen);
            && net.Enabled(e) && net1 == net.After(e)
            && OpenHandshake(net.receiver, e.record, maxLen).1 in {Success, Discard}
    ensures net1.Valid() && Further(net, net1) && (Wanted(net, order[0]) ==> Got(net1, order[0]))
    ensures net1.receiver.window.Represents(seen1) && Timely(net1, order[1..], maxLen, seen1)
  {
    hide Net.Valid, OpenHandshake, Window.Represents, Window.ShouldDiscard, Window.Record, Got, AsRecord;
    hide WireNumber, Net.Authentic;
    var x0 := order[0];
    assert x0 in order && Tolerated(net, x0, maxLen);
    var n0 := WireNumber(net.sender.wire[x0]);
    var e := Arrive(AsRecord(net.sender.wire[x0]), maxLen);
    assert |net.receiver.slots| == MAX_FLIGHT by { RingIsFull(net); }
    ArriveOne(net, x0, maxLen);
    DiscardedIffSeenOrStale(net.receiver.window, seen, n0);
    net1 := net.After(e);
    assert net1.Valid() by { StepIsValid(net, e); }
    seen1 := seen + {n0};
    if net.receiver.window.ShouldDiscard(n0) {
      assert seen1 == seen;
    } else {
      RecordAdds(net.receiver.window, n0, seen);
    }
    TimelyStep(net, net1, order, maxLen, seen);
  }

  lemma {:induction false} ArriveAll(net: Net, order: seq<nat>, maxLen: nat, seen: set<nat>) returns (end: Net)
    requires net.Valid() && |net.sender.queued| <= MAX_MESSAGES
    requires net.receiver.window.Represents(seen) && Timely(net, order, maxLen, seen)
    ensures forall k | 0 <= k < |order| :: order[k] < |net.sender.wire|
    ensures var arrivals := Arrivals(net.sender.wire, order, maxLen);
            IsRun(net, arrivals, end) && Unfailing(net, arrivals)
    ensures end.Valid() && Further(net, end) && AllGot(end, order)
    decreases |order|
  {
    hide Net.Valid, OpenHandshake, Window.Represents, Got, AsRecord, Net.Enabled, Net.After;
    if order == [] {
      end := net;
    } else {
      var net1, seen1 := ArriveFirst(net, order, maxLen, seen);
      end := ArriveAll(net1, order[1..], maxLen, seen1);
      assert forall x <- order :: x == order[0] || x in order[1..];
      var e := Arrive(AsRecord(net.sender.wire[order[0]]), maxLen);
      assert Arrivals(net.sender.wire, order, maxLen) == [e] + Arrivals(net.sender.wire, order[1..], maxLen);
    }
  }

  lemma StepIsValid(net: Net, e: Event)
    requires net.Valid() && |net.receiver.slots| == MAX_FLIGHT && net.Enabled(e)
    ensures net.After(e).Valid()
  {
    hide Net.Enabled, Net.After;
    StepKeepsValid(net, e);
  }

  // A whole flight

  /** A fragment in the list comes from a record. */
  lemma {:induction false} FragmentOrigin(recs: seq<Sealed>, seqNo: nat, j: nat) returns (r: nat)
    requires j < |FragmentsOf(recs, seqNo)|
    ensures r < |recs| && recs[r].typ == RT_HANDSHAKE && ParseFragment(recs[r].payload) == FragmentsOf(recs, seqNo)[j]
    ensures FragmentsOf(recs, seqNo)[j].Parsed? && FragmentsOf(recs, seqNo)[j].hdr.seqNo == seqNo
  {
    hide ParseFragment;
    var p := ParseFragment(recs[0].payload);
    var first := recs[0].typ == RT_HANDSHAKE && p.Parsed? && p.hdr.seqNo == seqNo;
    if first && j == 0 {
      r := 0;
    } else {
      var q := FragmentOrigin(recs[1..], seqNo, if first then j - 1 else j);
      r := q + 1;
    }
  }

  /** Tiles leave no gap. */
  lemma {:induction false} TileAt(frags: seq<Parsed>, at: nat, hdr: Header, body: seq<byte>, x: nat) returns (j: nat)
    requires Tiles(frags, at, hdr, body) && at <= x < |body|
    ensures j < |frags| && frags[j].Parsed? && frags[j].hdr.fragOff <= x < frags[j].hdr.fragOff + frags[j].hdr.fragLen
    decreases |frags|
  {
    if x < at + |frags[0].body| {
      j := 0;
    } else {
      var k := TileAt(frags[1..], at + |frags[0].body|, hdr, body, x);
      j := k + 1;
    }
  }

  /** `recs` are one pass over the current flight, and each of its records with part of a message is in `order`. */
  ghost predicate PassArrives(net: Net, recs: seq<Sealed>, order: seq<nat>) {
    && Covers(net.sender.flight, Cursor(0, 0), recs, Cursor(|net.sender.flight|, 0))
    && forall r | 0 <= r < |recs| && recs[r].typ == RT_HANDSHAKE ::
         exists x <- order :: x < |net.sender.wire| && net.sender.wire[x] == recs[r]
  }

  /** Message k of the queue is complete in the ring, as it was queued. */
  ghost predicate Ready(net: Net, k: nat) {
    && Holds(net.receiver, k) && k < |net.sender.queued|
    && var m := net.receiver.slots[k % MAX_FLIGHT].value;
    && m.Complete() && Message(m.typ, m.Body()) == net.sender.queued[k]
  }

  /** What one fragment of a pass leaves in the ring */
  lemma FragmentGot(net: Net, end: Net, recs: seq<Sealed>, order: seq<nat>, k: nat, j: nat)
    requires net.Valid() && |net.sender.queued| <= MAX_MESSAGES && PassArrives(net, recs, order)
    requires AllGot(end, order) && end.sender == net.sender && j < |FragmentsOf(recs, k)|
    requires |end.delivered| <= k < |end.delivered| + MAX_FLIGHT
    ensures Holds(end.receiver, k)
    ensures var f := FragmentsOf(recs, k)[j];
            f.Parsed? && forall x: nat | f.hdr.fragOff <= x < f.hdr.fragOff + f.hdr.fragLen :: Has(end.receiver, k, x)
  {
    hide ParseFragment, FragmentsOf, Covers, Has, Holds, IsFragment;
    var r := FragmentOrigin(recs, k, j);
    var i :| i in order && i < |net.sender.wire| && net.sender.wire[i] == recs[r];
    assert net.sender.wire[i].Genuine(net.sender.queued);
    GenuineIsPart(net.sender.queued, net.sender.wire[i]);
  }

  /** The fragments of one pass for a message of the flight */
  lemma PassTiles(s: Sending, recs: seq<Sealed>, f: nat) returns (hdr: Header)
    requires FlightFrom(s.flight, s.numbers, s.queued) && |s.queued| <= MAX_MESSAGES
    requires Covers(s.flight, Cursor(0, 0), recs, Cursor(|s.flight|, 0))
    requires f < |s.flight| && !s.flight[f].isCcs
    ensures s.numbers[f] < |s.queued|
    ensures FragmentsOf(recs, s.numbers[f]) != []
    ensures Tiles(FragmentsOf(recs, s.numbers[f]), 0, hdr, s.queued[s.numbers[f]].body)
  {
    hide ParseFragment, FragmentsOf, Serialize, Covers, Tiles, Outgoing.Carries, FlightWellFormed, Outgoing.Body;
    var k := s.numbers[f];
    FlightFromIsWellFormed(s.flight, s.numbers, s.queued);
    CoverTiles(s.flight, Cursor(0, 0), recs, f);
    ParseWhole(s.flight[f], s.queued[k], k);
    hdr := ParseFragment(s.flight[f].data).hdr;
  }

  /** A message of the flight whose fragments have all been taken in is complete. */
  lemma MessageCompletes(net: Net, end: Net, recs: seq<Sealed>, order: seq<nat>, f: nat)
    requires net.Valid() && |net.sender.queued| <= MAX_MESSAGES && PassArrives(net, recs, order)
    requires AllGot(end, order) && end.sender == net.sender && end.Valid()
    requires f < |net.sender.flight| == |net.sender.numbers| && !net.sender.flight[f].isCcs
    requires |end.delivered| <= net.sender.numbers[f] < |end.delivered| + MAX_FLIGHT
    ensures Ready(end, net.sender.numbers[f])
  {
    hide FragmentsOf, Covers, Tiles, Has, Holds, Got, Net.Valid, FlightFrom;
    assert FlightFrom(net.sender.flight, net.sender.numbers, net.sender.queued) by { FlightIsFrom(net); }
    var k := net.sender.numbers[f];
    var hdr := PassTiles(net.sender, recs, f);
    FragmentGot(net, end, recs, order, k, 0);
    forall x: nat | x < |net.sender.queued[k].body| ensures Has(end.receiver, k, x) {
      var j := TileAt(FragmentsOf(recs, k), 0, hdr, net.sender.queued[k].body, x);
      FragmentGot(net, end, recs, order, k, j);
    }
    HasAllIsReady(end, k);
  }

  lemma FlightIsFrom(net: Net)
    requires net.Valid()
    ensures FlightFrom(net.sender.flight, net.sender.numbers, net.sender.queued)
  {
  }

  lemma HasAllIsReady(net: Net, k: nat)
    requires net.Valid() && |net.sender.queued| <= MAX_MESSAGES && Holds(net.receiver, k)
    requires k < |net.sender.queued| && forall x: nat | x < |net.sender.queued[k].body| :: Has(net.receiver, k, x)
    ensures Ready(net, k)
  {
    hide Sending.Valid, Net.AllCame, State.SlotOk;
    var m := net.receiver.slots[k % MAX_FLIGHT].value;
    assert net.Agrees(m);
    forall i: nat | i < m.msgLen ensures i in m.content {
      assert Has(net.receiver, k, i);
    }
    assert m.Body() == net.sender.queued[k].body;
  }

  /** Reading messages changes the ring, the read position and the note that a message was handed out, and no more. */
  predicate SameButRing(s: State, s': State) {
    s' == s.(slots := s'.slots, readSeq := s'.readSeq, hasMessage := s'.hasMessage)
  }

  /** Messages that are ready are handed out one after the other. */
  lemma {:induction false} HandOutAll(net: Net, n: nat) returns (events: seq<Event>, end: Net)
    requires net.Valid() && |net.sender.queued| <= MAX_MESSAGES
    requires |net.delivered| <= n <= |net.sender.queued| && n <= |net.delivered| + MAX_FLIGHT
    requires forall k | |net.delivered| <= k < n :: Ready(net, k)
    ensures IsRun(net, events, end) && end.sender == net.sender && end.delivered == net.sender.queued[..n]
    ensures end.Valid() && SameButRing(net.receiver, end.receiver)
    decreases n - |net.delivered|
  {
    hide Sending.Valid, Net.AllCame, Net.Agrees, State.SlotOk, Incoming.Complete, Incoming.Body;
    if |net.delivered| == n {
      events, end := [], net;
    } else {
      var k := |net.delivered|;
      assert Ready(net, k);
      assert net.receiver.CurrentComplete();
      var net1 := net.After(Get);
      assert net1.Valid() by { StepIsValid(net, Get); }
      var net2 := net1.After(Next);
      assert net2.Valid() by { StepIsValid(net1, Next); }
      forall j | k < j < n ensures Ready(net2, j) {
        assert Ready(net, j);
        assert j % MAX_FLIGHT != k % MAX_FLIGHT;
      }
      assert |net2.delivered| == k + 1;
      var rest;
      rest, end := HandOutAll(net2, n);
      events := [Get, Next] + rest;
      assert events[1..] == [Next] + rest && ([Next] + rest)[1..] == rest;
      assert IsRun(net1, [Next] + rest, end);
    }
  }

  /**
    * A flight that gets through is delivered. When the records of one pass over the flight arrive under the key
    * they were sealed with, in any order and with any repetition, among records of messages that were already read
    * or come later, but none so late that the replay window has left it behind, then none of them ends the handshake,
    * and every message of the flight that was not read before is complete; and when the flight holds all that was not,
    * reading then hands out all that was queued.
    */
  lemma FlightDelivered(net: Net, recs: seq<Sealed>, order: seq<nat>, maxLen: nat, seen: set<nat>)
    returns (arrived: Net, reading: seq<Event>, end: Net)
    requires net.Valid() && |net.sender.queued| <= MAX_MESSAGES && |net.delivered| <= |net.sender.queued|
    requires net.receiver.window.Represents(seen) && Timely(net, order, maxLen, seen)
    requires PassArrives(net, recs, order)
    requires forall k | |net.delivered| <= k < |net.sender.queued| :: Flying(net.sender, k)
    ensures forall k | 0 <= k < |order| :: order[k] < |net.sender.wire|
    ensures var arrivals := Arrivals(net.sender.wire, order, maxLen);
            IsRun(net, arrivals, arrived) && Unfailing(net, arrivals)
    ensures forall k | |net.delivered| <= k < |net.sender.queued| :: Ready(arrived, k)
    ensures IsRun(arrived, reading, end) && end.delivered == net.sender.queued
    ensures end.Valid() && SameButRing(arrived.receiver, end.receiver)
    ensures arrived.receiver == net.receiver.(slots := arrived.receiver.slots, window := arrived.receiver.window)
  {
    hide Net.Valid, IsRun, Unfailing, Timely, PassArrives, Got, Ready, Arrivals, Window.Represents;
    arrived := ArriveAll(net, order, maxLen, seen);
    FlightLengths(net);
    FewLeft(net);
    forall k | |arrived.delivered| <= k < |net.sender.queued| ensures Ready(arrived, k) {
      assert Flying(net.sender, k);
      var f :| 0 <= f < |net.sender.flight| && InFlight(net.sender, f, k);
      MessageCompletes(net, arrived, recs, order, f);
    }
    reading, end := HandOutAll(arrived, |net.sender.queued|);
    assert net.sender.queued[..|net.sender.queued|] == net.sender.queued;
  }

  /** Message k is in the flight. */
  predicate Flying(s: Sending, k: nat) {
    exists f | 0 <= f < |s.flight| :: InFlight(s, f, k)
  }

  predicate InFlight(s: Sending, f: nat, k: nat) {
    f < |s.flight| == |s.numbers| && !s.flight[f].isCcs && s.numbers[f] == k
  }

  lemma FlightLengths(net: Net)
    requires net.Valid()
    ensures |net.sender.flight| == |net.sender.numbers|
  {
  }

  /** A flight that holds all that is left does not hold more than the ring. */
  lemma FewLeft(net: Net)
    requires net.Valid() && |net.delivered| <= |net.sender.queued|
    requires forall k | |net.delivered| <= k < |net.sender.queued| :: Flying(net.sender, k)
    ensures |net.sender.queued| <= |net.delivered| + MAX_FLIGHT
  {
    if |net.delivered| < |net.sender.queued| {
      assert Flying(net.sender, |net.delivered|);
      var f :| 0 <= f < |net.sender.flight| && InFlight(net.sender, f, |net.delivered|);
    }
  }

  /** When all that was queued has been handed out, the read key can change, unless a ChangeCipherSpec is pending. */
  lemma KeyChangeAfterAll(net: Net, nullCipher: bool)
    requires net.Valid() && |net.delivered| == |net.sender.queued| <= MAX_MESSAGES
    ensures |net.receiver.slots| == MAX_FLIGHT
    ensures SetReadState(net.receiver, nullCipher).1 <==> !net.receiver.hasCcs
  {
    hide Sending.Valid, Net.AllCame, SetReadState;
    KeyChangesExactly(net.receiver, nullCipher);
    forall i: nat | i < MAX_FLIGHT ensures net.receiver.slots[i].None? {
    }
  }
}
