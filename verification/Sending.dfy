/**
  * The sending side as one value, with the operations that queue messages, seal records of the current
  * flight and change the write key (d1_both.cc, dtls_record.cc, dtls_method.cc).
  */
module Sending {
  import opened Bits
  import opened Bytes
  import opened HandshakeFragment
  import opened ReceiverSpec
  import opened SenderSpec

  /** A record number has 48 bits below the 16 of the epoch. */
  const NUMBER_LIMIT: nat := 0x1_0000_0000_0000

  lemma SixBytes()
    ensures Pow2(48) == NUMBER_LIMIT
  {
    Pow2Step8(0);
    Pow2Step8(8);
    Pow2Step8(16);
    Pow2Step8(24);
    Pow2Step8(32);
    Pow2Step8(40);
  }

  /** The eight bytes in front of a record, as one number */
  function WireNumber(rec: Sealed): nat {
    rec.epoch % 0x1_0000 * NUMBER_LIMIT + rec.number
  }

  /**
    * The messages queued so far; the flight, with the number of each message in it, and whether it is
    * complete; how often the write key has changed, and the next record numbers under the current and the
    * previous key; and every record sealed so far. An epoch here counts key changes, and the code has its
    * low 16 bits.
    */
  datatype Sending = Sending(
    queued: seq<Message>, flight: seq<Outgoing>, numbers: seq<nat>, complete: bool,
    epoch: nat, next: nat, lastNext: nat, wire: seq<Sealed>)
  {
    /** The flight that add_outgoing appends to */
    function OpenFlight(): Sending {
      if complete then Cleared() else this
    }

    /** dtls_clear_outgoing_messages */
    function Cleared(): Sending {
      this.(flight := [], numbers := [], complete := false)
    }

    predicate HasRoom() {
      |OpenFlight().flight| < MAX_FLIGHT
    }

    /** add_outgoing of a message */
    function QueueMessage(m: Message): Sending
      requires |m.body| < 0x100_0000
    {
      var s := OpenFlight();
      s.(flight := s.flight + [Outgoing(Serialize(WholeHeader(m, |queued|), m.body), epoch, false)],
         numbers := s.numbers + [|queued|], queued := queued + [m])
    }

    /** add_outgoing of a ChangeCipherSpec */
    function QueueCcs(): Sending {
      var s := OpenFlight();
      s.(flight := s.flight + [Outgoing([], epoch, true)], numbers := s.numbers + [|queued|])
    }

    /** dtls1_set_write_state */
    function NextKey(): Sending {
      this.(epoch := epoch + 1, next := 0, lastNext := next)
    }

    /** The keys that seal_next_message picks for a message of the flight, by 16-bit epochs; none is an error. */
    function SealEpoch(o: Outgoing): Option<nat> {
      var w, e := epoch % 0x1_0000, o.epoch % 0x1_0000;
      if w >= 1 && e == w - 1 then Some(epoch - 1) else if e == w then Some(epoch) else None
    }

    /** `rec` can be sealed for message `at` of the flight. A record whose number would wrap is not emitted. */
    ghost predicate CanSeal(at: nat, rec: Sealed) {
      && at < |flight| == |numbers|
      && SealEpoch(flight[at]) == Some(rec.epoch)
      && rec.number == (if rec.epoch == epoch then next else lastNext)
      && rec.number + 1 < NUMBER_LIMIT
      && rec.Genuine(queued)
      && (if flight[at].isCcs then rec.part == NoPart else rec.part.Part? && rec.part.msg == numbers[at])
    }

    /** dtls_seal_record */
    function Seal(rec: Sealed): Sending {
      UseNumber(rec.epoch != epoch).(wire := wire + [rec])
    }

    /** A record number used up by a record of another kind, or by none */
    function UseNumber(previous: bool): Sending {
      if previous then this.(lastNext := lastNext + 1) else this.(next := next + 1)
    }

    /**
      * What was sealed is genuine, under numbers that rise within each epoch. A record of a message is sealed
      * while that message is in the flight, so before any record of a message seven or more further on, and
      * under a key no later than that.
      */
    ghost predicate Valid() {
      && AllGenuine(wire, queued)
      && FlightFrom(flight, numbers, queued)
      && NumbersRise(wire, epoch, next, lastNext)
      && InOrder()
      && FlightLater()
      && NumbersInRange()
    }

    ghost predicate NumbersInRange() {
      forall i | 0 <= i < |wire| :: wire[i].number < NUMBER_LIMIT
    }

    ghost predicate InOrder() {
      forall i, j | 0 <= i < j < |wire| && wire[i].part.Part? && wire[j].part.Part? ::
        && wire[i].part.msg < wire[j].part.msg + MAX_FLIGHT
        && (wire[i].part.msg + MAX_FLIGHT <= wire[j].part.msg ==> wire[i].epoch <= wire[j].epoch)
    }

    ghost predicate FlightLater() {
      && |flight| == |numbers|
      && (forall o <- flight :: o.epoch <= epoch)
      && forall i, f | 0 <= i < |wire| && wire[i].part.Part? && 0 <= f < |flight| && !flight[f].isCcs
                       && wire[i].part.msg + MAX_FLIGHT <= numbers[f] :: wire[i].epoch <= flight[f].epoch
    }
  }

  lemma ClearedKeepsValid(s: Sending)
    requires s.Valid()
    ensures s.Cleared().Valid() && s.OpenFlight().Valid()
  {
    hide AllGenuine, NumbersRise;
  }

  lemma QueueMessageKeepsValid(s: Sending, m: Message)
    requires s.Valid() && s.HasRoom() && |m.body| < 0x100_0000
    ensures s.QueueMessage(m).Valid()
  {
    hide AllGenuine, FlightFrom, Outgoing.Carries, Serialize, NumbersRise, Sending.FlightLater;
    var t := s.OpenFlight();
    ClearedKeepsValid(s);
    var o := Outgoing(Serialize(WholeHeader(m, |s.queued|), m.body), s.epoch, false);
    CarriesWhole(m, |s.queued|, s.epoch);
    FlightAppend(t.flight, t.numbers, s.queued, o, m);
    GenuineStays(s.wire, s.queued, [m]);
    QueueKeepsLater(t, o, s.queued + [m]);
  }

  /** What is queued now is sealed under no earlier key than anything so far. */
  lemma QueueKeepsLater(t: Sending, o: Outgoing, queued: seq<Message>)
    requires t.FlightLater() && o.epoch == t.epoch && NumbersRise(t.wire, t.epoch, t.next, t.lastNext)
    ensures t.(flight := t.flight + [o], numbers := t.numbers + [|t.queued|], queued := queued).FlightLater()
  {
  }

  lemma CarriesWhole(m: Message, seqNo: nat, epoch: nat)
    requires |m.body| < 0x100_0000
    ensures Outgoing(Serialize(WholeHeader(m, seqNo), m.body), epoch, false).Carries(m, seqNo)
  {
  }

  lemma QueueCcsKeepsValid(s: Sending)
    requires s.Valid() && s.HasRoom()
    ensures s.QueueCcs().Valid()
  {
    hide AllGenuine, FlightFrom, Outgoing.Carries, NumbersRise;
    var t := s.OpenFlight();
    ClearedKeepsValid(s);
    FlightAppend(t.flight, t.numbers, s.queued, Outgoing([], s.epoch, true), Message(0, []));
  }

  lemma NextKeyKeepsValid(s: Sending)
    requires s.Valid()
    ensures s.NextKey().Valid()
  {
    hide AllGenuine, FlightFrom;
  }

  lemma UseNumberKeepsValid(s: Sending, previous: bool)
    requires s.Valid() && (previous ==> s.epoch >= 1)
    ensures s.UseNumber(previous).Valid()
  {
    hide AllGenuine, FlightFrom;
    NumberUsed(s.wire, s.epoch, s.next, s.lastNext, previous, []);
    assert s.wire + [] == s.wire;
  }

  /** Below the wrap of the epoch, the keys picked are the current ones or the previous ones. */
  lemma SealEpochIs(s: Sending, o: Outgoing, previous: bool)
    requires s.epoch < 0x1_0000 && o.epoch + (if previous then 1 else 0) == s.epoch
    ensures s.SealEpoch(o) == Some(o.epoch)
  {
  }

  /** The keys picked are never older than the message. */
  lemma SealEpochLater(s: Sending, o: Outgoing)
    requires o.epoch <= s.epoch && s.SealEpoch(o).Some?
    ensures o.epoch <= s.SealEpoch(o).value <= s.epoch
  {
  }

  lemma SealKeepsValid(s: Sending, at: nat, rec: Sealed)
    requires s.Valid() && s.CanSeal(at, rec)
    ensures s.Seal(rec).Valid()
  {
    hide GenuineContent, Outgoing.Carries, NumbersRise, AllGenuine, Sending.SealEpoch, Sending.InOrder, Sending.FlightLater;
    SealEpochNear(s, s.flight[at]);
    NumberUsed(s.wire, s.epoch, s.next, s.lastNext, rec.epoch != s.epoch, [rec]);
    GenuineAppend(s.wire, rec, s.queued);
    SealKeepsOrder(s, at, rec);
  }

  lemma SealKeepsOrder(s: Sending, at: nat, rec: Sealed)
    requires s.Valid() && s.CanSeal(at, rec)
    ensures s.Seal(rec).InOrder() && s.Seal(rec).FlightLater()
  {
    hide GenuineContent, Outgoing.Carries, NumbersRise, AllGenuine, Sending.SealEpoch;
    assert s.flight[at] in s.flight;
    SealEpochLater(s, s.flight[at]);
    forall i | 0 <= i < |s.wire| && s.wire[i].part.Part? ensures s.wire[i].part.msg < |s.queued| {
      GenuineMessage(s.wire, s.queued, i);
    }
  }

  lemma SealEpochNear(s: Sending, o: Outgoing)
    requires s.SealEpoch(o).Some?
    ensures s.SealEpoch(o).value == s.epoch || (s.epoch >= 1 && s.SealEpoch(o).value == s.epoch - 1)
  {
  }

  lemma GenuineMessage(wire: seq<Sealed>, queued: seq<Message>, i: nat)
    requires AllGenuine(wire, queued) && i < |wire| && wire[i].part.Part?
    ensures wire[i].part.msg < |queued|
  {
    assert wire[i].Genuine(queued);
  }

  // Sealing, as a sequence of steps

  datatype SealStep = SealStep(at: nat, rec: Sealed) | NumberStep(previous: bool)

  ghost predicate SealRun(a: Sending, steps: seq<SealStep>, b: Sending)
    decreases |steps|
  {
    if steps == [] then a == b
    else
      match steps[0]
      case SealStep(at, rec) => a.CanSeal(at, rec) && SealRun(a.Seal(rec), steps[1..], b)
      case NumberStep(previous) => (previous ==> a.epoch >= 1) && SealRun(a.UseNumber(previous), steps[1..], b)
  }

  /** `b` comes of `a` by sealing records of its flight and using up record numbers. */
  ghost predicate SealedOn(a: Sending, b: Sending) {
    exists steps :: SealRun(a, steps, b)
  }

  lemma NothingSealed(a: Sending)
    ensures SealedOn(a, a)
  {
    assert SealRun(a, [], a);
  }

  lemma OneSealed(a: Sending, at: nat, rec: Sealed)
    requires a.CanSeal(at, rec)
    ensures SealedOn(a, a.Seal(rec))
  {
    hide Sending.CanSeal;
    assert SealRun(a.Seal(rec), [], a.Seal(rec));
    assert SealRun(a, [SealStep(at, rec)], a.Seal(rec));
  }

  lemma NumberUsedUp(a: Sending, previous: bool)
    requires previous ==> a.epoch >= 1
    ensures SealedOn(a, a.UseNumber(previous))
  {
    assert SealRun(a.UseNumber(previous), [], a.UseNumber(previous));
    assert SealRun(a, [NumberStep(previous)], a.UseNumber(previous));
  }

  lemma {:induction false} RunAppended(a: Sending, xs: seq<SealStep>, b: Sending, ys: seq<SealStep>, c: Sending)
    requires SealRun(a, xs, b) && SealRun(b, ys, c)
    ensures SealRun(a, xs + ys, c)
    decreases |xs|
  {
    hide Sending.CanSeal;
    if xs == [] {
      assert xs + ys == ys;
    } else {
      var next := match xs[0] case SealStep(_, rec) => a.Seal(rec) case NumberStep(previous) => a.UseNumber(previous);
      RunAppended(next, xs[1..], b, ys, c);
      assert (xs + ys)[1..] == xs[1..] + ys;
    }
  }

  lemma SealedFurther(a: Sending, b: Sending, c: Sending)
    requires SealedOn(a, b) && SealedOn(b, c)
    ensures SealedOn(a, c)
  {
    hide SealRun;
    var xs :| SealRun(a, xs, b);
    var ys :| SealRun(b, ys, c);
    RunAppended(a, xs, b, ys, c);
  }

  /** What an attempt to seal a record for message `at` of the flight makes of the sender */
  lemma RecordSealed(a: Sending, b: Sending, at: nat, previous: bool, ok: bool)
    requires at < |a.flight| == |a.numbers| && a.epoch < 0x1_0000
    requires a.flight[at].epoch + (if previous then 1 else 0) == a.epoch
    requires ok ==>
               && |b.wire| == |a.wire| + 1
               && var rec := b.wire[|a.wire|];
               && b == a.Seal(rec)
               && rec.epoch == a.flight[at].epoch && rec.number == (if previous then a.lastNext else a.next)
               && rec.number + 1 < NUMBER_LIMIT && rec.Genuine(a.queued)
               && (if a.flight[at].isCcs then rec.part == NoPart else rec.part.Part? && rec.part.msg == a.numbers[at])
    requires !ok ==> b == a || b == a.UseNumber(previous)
    ensures SealedOn(a, b)
  {
    hide SealedOn, Sending.SealEpoch;
    SealEpochIs(a, a.flight[at], previous);
    if ok {
      OneSealed(a, at, b.wire[|a.wire|]);
    } else if b == a {
      NothingSealed(a);
    } else {
      NumberUsedUp(a, previous);
    }
  }
}
