/**
  * The sending side of the DTLS handshake as the source updates it (d1_both.cc, dtls_record.cc,
  * dtls_method.cc): queueing a flight, cutting it into records that fit the MTU, sealing them under
  * per-epoch record numbers, and sending it again.
  */
module Sender {
  import opened Bits
  import opened Bytes
  import opened HandshakeFragment
  import opened ReceiverSpec
  import opened SenderSpec
  import opened Sending

  /** kMinMTU and kDefaultMTU */
  const MIN_MTU: nat := 256 - 28
  const DEFAULT_MTU: nat := 1500 - 28

  /** What the sealing code asks of an SSLAEADContext. */
  datatype Aead = Aead(explicitNonceLen: nat, maxOverhead: nat) {
    predicate Valid() {
      explicitNonceLen <= maxOverhead
    }
  }

  /**
    * How long a payload of `len` bytes is when sealed, or none when the AEAD fails or there is too little space
    * behind the record header. The AEAD fails or adds `added` bytes behind the nonce, up to its overhead.
    */
  function SealedLength(aead: Aead, added: Option<nat>, len: nat, maxOut: nat): (c: Option<nat>)
    requires aead.Valid()
    ensures c.Some? ==> RT_HEADER_LENGTH + c.value <= maxOut
    ensures c.None? ==> added.None? || maxOut < RT_HEADER_LENGTH + aead.maxOverhead + len
  {
    if maxOut < RT_HEADER_LENGTH || added.None? then None
    else
      var room := aead.maxOverhead - aead.explicitNonceLen;
      var c := aead.explicitNonceLen + len + if added.value < room then added.value else room;
      if c > maxOut - RT_HEADER_LENGTH then None else Some(c)
  }

  datatype SealResult = SealError | NoProgress | Partial | Sealed

  /** How a call to send_flight ended. */
  datatype SendResult = Sent | SealFailed | WriteBlocked | FlushBlocked | Shutdown

  /** The bytes after adding one to the last and carrying; false when the carry leaves the front. */
  function Increment(bytes: seq<byte>): (r: (bool, seq<byte>))
    ensures |r.1| == |bytes|
    ensures r.0 ==> BigEndian(r.1) == BigEndian(bytes) + 1
    ensures !r.0 ==> BigEndian(bytes) + 1 == Pow2(8 * |bytes|) && BigEndian(r.1) == 0
  {
    if bytes == [] then (false, [])
    else
      var n := |bytes| - 1;
      Pow2Step8(8 * n);
      if bytes[n] < 255 then (true, bytes[..n] + [bytes[n] + 1])
      else
        var (ok, front) := Increment(bytes[..n]);
        assert (front + [0])[..n] == front;
        (ok, front + [0])
  }

  /** ssl_record_sequence_update: the next big-endian number, or false when it wraps to zero. */
  method SequenceUpdate(sequence: seq<byte>) returns (ok: bool, next: seq<byte>)
    ensures |next| == |sequence|
    ensures ok ==> BigEndian(next) == BigEndian(sequence) + 1
    ensures !ok ==> BigEndian(sequence) + 1 == Pow2(8 * |sequence|) && BigEndian(next) == 0
  {
    hide BigEndian;
    next := sequence;
    var i := |sequence|;
    assert sequence[..i] == sequence && Increment(sequence).1 + next[i..] == Increment(sequence).1;
    while i > 0
      invariant 0 <= i <= |sequence| == |next|
      invariant next[..i] == sequence[..i]
      invariant Increment(sequence) == (Increment(sequence[..i]).0, Increment(sequence[..i]).1 + next[i..])
    {
      ghost var front, tail := sequence[..i - 1], next[i..];
      assert sequence[..i][..i - 1] == front;
      i := i - 1;
      next := next[i := if next[i] == 255 then 0 else next[i] + 1];
      assert next[i..] == [next[i]] + tail;
      if next[i] != 0 {
        assert next == (front + [next[i]]) + tail;
        return true, next;
      }
      assert (Increment(front).1 + [0]) + tail == Increment(front).1 + next[i..];
    }
    assert Increment([]).1 + next[0..] == next;
    ok := false;
  }

  /** The fields of DTLS1_STATE and SSL3_STATE that sending a handshake uses. */
  class Connection {
    var outgoing: seq<Outgoing>
    var written: nat
    var offset: nat
    var complete: bool
    var hasReply: bool
    var handshakeWriteSeq: nat
    var epoch: nat
    var writeSeq: seq<byte>
    var lastWriteSeq: seq<byte>
    var aead: Aead
    var lastAead: Aead
    var mtu: nat
    var noQueryMtu: bool
    var shutdown: bool

    /** What the AEAD does with the n-th record it is to seal: nothing, or append so many bytes, up to its overhead */
    const sealing: nat -> Option<nat>
    var sealCalls: nat
    /** Whether the transport takes what it is given at its n-th call, a packet or the order to flush */
    const writing: nat -> bool
    var writeCalls: nat

    /** Every handshake message queued so far. */
    ghost var queued: seq<Message>
    /** The connection-wide number of each message of the flight. */
    ghost var numbers: seq<nat>
    /** Every record sealed so far. */
    ghost var sealed: seq<SenderSpec.Sealed>
    /** Whether a record number or the epoch has wrapped around. */
    ghost var wrapped: bool

    ghost function Cursor(): Cursor
      reads this`written, this`offset
    {
      SenderSpec.Cursor(written, offset)
    }

    /** The connection as a value */
    ghost function Value(): Sending
      reads this`queued, this`outgoing, this`numbers, this`complete, this`epoch, this`writeSeq, this`lastWriteSeq, this`sealed
    {
      Sending(queued, outgoing, numbers, complete, epoch, BigEndian(writeSeq), BigEndian(lastWriteSeq), sealed)
    }

    /** Sealed records carry what was queued, under numbers that rise within each epoch. */
    ghost predicate RecordsOk()
      reads this`sealed, this`queued, this`wrapped, this`epoch, this`writeSeq, this`lastWriteSeq
    {
      && AllGenuine(sealed, queued)
      && (!wrapped ==> NumbersRise(sealed, epoch, BigEndian(writeSeq), BigEndian(lastWriteSeq)))
    }

    ghost predicate Valid()
      reads this
    {
      && handshakeWriteSeq == |queued| % 0x1_0000
      && |writeSeq| == |lastWriteSeq| == 6
      && epoch < 0x1_0000
      && aead.Valid() && lastAead.Valid()
      && CursorOk(outgoing, Cursor())
      && FlightFrom(outgoing, numbers, queued)
      && RecordsOk()
    }

    constructor (aead: Aead, mtu: nat, sealing: nat -> Option<nat>, writing: nat -> bool)
      requires aead.Valid()
      ensures Valid() && Value() == Sending([], [], [], false, 0, 0, 0, []) && Cursor() == SenderSpec.Cursor(0, 0)
      ensures !hasReply && !wrapped && !shutdown && !noQueryMtu && lastAead == aead
      ensures this.aead == aead && this.mtu == mtu && this.sealing == sealing && this.writing == writing
    {
      this.sealing, this.writing, sealCalls, writeCalls := sealing, writing, 0, 0;
      outgoing, written, offset, complete, hasReply := [], 0, 0, false, false;
      handshakeWriteSeq, epoch := 0, 0;
      writeSeq, lastWriteSeq := [0, 0, 0, 0, 0, 0], [0, 0, 0, 0, 0, 0];
      this.aead, lastAead, this.mtu, noQueryMtu, shutdown := aead, aead, mtu, false, false;
      queued, numbers, sealed, wrapped := [], [], [], false;
      new;
      BigEndianZeros([0, 0, 0, 0, 0, 0]);
    }

    /** dtls_clear_outgoing_messages */
    method ClearOutgoing()
      requires Valid()
      modifies this`outgoing, this`numbers, this`written, this`offset, this`complete, this`hasReply
      ensures Valid() && outgoing == [] && numbers == [] && Cursor() == SenderSpec.Cursor(0, 0) && !complete && !hasReply
      ensures Value() == old(Value()).Cleared()
    {
      hide RecordsOk;
      outgoing, numbers, written, offset, complete, hasReply := [], [], 0, 0, false, false;
    }

    /** add_outgoing; a message is tagged with the write epoch of the moment. */
    method AddOutgoing(isCcs: bool, data: seq<byte>, ghost m: Message) returns (ok: bool)
      requires Valid()
      requires !isCcs ==> Outgoing(data, epoch, false).Carries(m, |queued|)
      modifies this`outgoing, this`numbers, this`written, this`offset, this`complete, this`hasReply,
               this`handshakeWriteSeq, this`queued
      ensures Valid()
      ensures ok <==> (old(complete) || |old(outgoing)| < MAX_FLIGHT) && |data| <= 0xffff_ffff
      ensures queued == if ok && !isCcs then old(queued) + [m] else old(queued)
      ensures ok ==> outgoing == (if old(complete) then [] else old(outgoing)) + [Outgoing(data, epoch, isCcs)]
      ensures ok ==> numbers == (if old(complete) then [] else old(numbers)) + [|old(queued)|]
      ensures !ok ==> outgoing == if old(complete) then [] else old(outgoing)
      ensures if old(complete) then Cursor() == SenderSpec.Cursor(0, 0) && !complete && !hasReply
              else Cursor() == old(Cursor()) && !complete && hasReply == old(hasReply)
    {
      hide AllGenuine, NumbersRise, BigEndian, Outgoing.Carries, FlightFrom, Value;
      if complete {
        ClearOutgoing();
      }
      if |outgoing| >= MAX_FLIGHT || |data| > 0xffff_ffff {
        return false;
      }
      FlightAppend(outgoing, numbers, queued, Outgoing(data, epoch, isCcs), m);
      outgoing := outgoing + [Outgoing(data, epoch, isCcs)];
      numbers := numbers + [|queued|];
      if !isCcs {
        handshakeWriteSeq := (handshakeWriteSeq + 1) % 0x1_0000;
        GenuineStays(sealed, queued, [m]);
        queued := queued + [m];
      }
      ok := true;
    }

    /** dtls1_init_message, dtls1_finish_message and dtls1_add_message: queue a handshake message of a type and body. */
    method AddMessage(typ: byte, body: seq<byte>) returns (ok: bool)
      requires Valid()
      modifies this`outgoing, this`numbers, this`written, this`offset, this`complete, this`hasReply,
               this`handshakeWriteSeq, this`queued
      ensures Valid()
      ensures ok <==> (old(complete) || |old(outgoing)| < MAX_FLIGHT) && |body| < 0x100_0000
      ensures queued == if ok then old(queued) + [Message(typ, body)] else old(queued)
      ensures ok ==> Value() == old(Value()).QueueMessage(Message(typ, body))
      ensures ok && old(complete) ==> Cursor() == SenderSpec.Cursor(0, 0) && !hasReply
      ensures ok && !old(complete) ==> Cursor() == old(Cursor()) && hasReply == old(hasReply)
    {
      if |body| >= 0x100_0000 {
        // the length prefix of the body overflows
        return false;
      }
      var data := Serialize(Header(typ, |body|, handshakeWriteSeq, 0, |body|), body);
      ok := AddOutgoing(false, data, Message(typ, body));
    }

    /** dtls1_add_change_cipher_spec */
    method AddChangeCipherSpec() returns (ok: bool)
      requires Valid()
      modifies this`outgoing, this`numbers, this`written, this`offset, this`complete, this`hasReply,
               this`handshakeWriteSeq, this`queued
      ensures Valid() && queued == old(queued)
      ensures ok <==> old(complete) || |old(outgoing)| < MAX_FLIGHT
      ensures ok ==> Value() == old(Value()).QueueCcs()
      ensures ok && old(complete) ==> Cursor() == SenderSpec.Cursor(0, 0) && !hasReply
      ensures ok && !old(complete) ==> Cursor() == old(Cursor()) && hasReply == old(hasReply)
    {
      ok := AddOutgoing(true, [], Message(0, []));
    }

    /** dtls1_set_write_state */
    method SetWriteState(newAead: Aead)
      requires Valid() && newAead.Valid()
      modifies this`epoch, this`writeSeq, this`lastWriteSeq, this`aead, this`lastAead, this`wrapped
      ensures Valid() && (old(wrapped) ==> wrapped) && (wrapped ==> old(wrapped) || old(epoch) == 0xffff)
      ensures aead == newAead && lastAead == old(aead) && epoch == (old(epoch) + 1) % 0x1_0000
      ensures BigEndian(writeSeq) == 0 && lastWriteSeq == old(writeSeq)
      ensures !wrapped ==> Value() == old(Value()).NextKey()
    {
      hide AllGenuine, BigEndian, NumbersRise, FlightFrom;
      if epoch == 0xffff {
        wrapped := true;
      }
      if !wrapped {
        NextEpochRises(sealed, epoch, BigEndian(writeSeq), BigEndian(lastWriteSeq));
      }
      BigEndianZeros([0, 0, 0, 0, 0, 0]);
      epoch := (epoch + 1) % 0x1_0000;
      lastWriteSeq, writeSeq := writeSeq, [0, 0, 0, 0, 0, 0];
      lastAead, aead := aead, newAead;
    }

    /** get_write_aead, and the record number it would use next */
    function WriteAead(usePrevious: bool): Aead
      reads this`aead, this`lastAead
    {
      if usePrevious then lastAead else aead
    }

    /** The keys of the epoch of the message are the current or the previous ones. */
    predicate HasKeys(o: Outgoing)
      reads this`epoch
    {
      epoch == o.epoch || epoch == o.epoch + 1
    }

    /** Some of the message can be sealed in the space, with the keys of its epoch. */
    predicate Fits(o: Outgoing, space: int)
      reads this`epoch, this`aead, this`lastAead
    {
      HasKeys(o) && Room(o, WriteAead(epoch != o.epoch)) <= space
    }

    predicate AllFit(from: nat, space: int)
      reads this`outgoing, this`epoch, this`aead, this`lastAead
    {
      forall i | from <= i < |outgoing| :: Fits(outgoing[i], space)
    }

    /** A call to the AEAD has failed, a number has wrapped, or records may be too long for their length field. */
    ghost predicate Trouble(space: nat, from: nat)
      reads this`wrapped, this`sealCalls
    {
      || wrapped
      || space >= 0x1_0000 + RT_HEADER_LENGTH
      || exists n | from <= n < sealCalls :: sealing(n).None?
    }

    lemma FitWider(from: nat, space: nat, from': nat)
      requires !AllFit(from, space) && from' <= from
      ensures !AllFit(from', space)
    {
    }

    lemma TroubleWider(space: nat, from: nat, space': nat, from': nat)
      requires Trouble(space, from) && space <= space' && from' <= from
      ensures Trouble(space', from')
    {
    }

    ghost function NextNumber(usePrevious: bool): nat
      reads this
    {
      BigEndian(if usePrevious then lastWriteSeq else writeSeq)
    }

    /** The next record number is used up, by the record in `recs` if there is one and the number does not wrap. */
    method UseSequence(usePrevious: bool, ghost recs: seq<SenderSpec.Sealed>) returns (fits: bool)
      requires Valid() && (usePrevious ==> epoch >= 1)
      requires |recs| <= 1
      requires forall r <- recs :: r.Genuine(queued) && r.epoch == (if usePrevious then epoch - 1 else epoch)
                                && r.number == NextNumber(usePrevious)
      modifies this`writeSeq, this`lastWriteSeq, this`sealed, this`wrapped
      ensures Valid() && (fits <==> old(NextNumber(usePrevious)) + 1 < NUMBER_LIMIT)
      ensures sealed == old(sealed) + (if fits then recs else []) && (wrapped <==> old(wrapped) || !fits)
      ensures fits ==> Value() == old(Value()).UseNumber(usePrevious).(wire := sealed)
    {
      hide GenuineContent, BigEndian, FlightFrom, Pow2, NumbersRise, AllGenuine;
      SixBytes();
      if !wrapped {
        NumberUsed(sealed, epoch, NextNumber(false), NextNumber(true), usePrevious, recs);
      }
      var sequence;
      fits, sequence := SequenceUpdate(if usePrevious then lastWriteSeq else writeSeq);
      if usePrevious {
        lastWriteSeq := sequence;
      } else {
        writeSeq := sequence;
      }
      if !fits {
        wrapped := true;
        assert sealed + [] == sealed;
        return;
      }
      assert recs == [] ==> sealed + recs == sealed;
      if recs != [] {
        GenuineAppend(sealed, recs[0], queued);
        assert recs == [recs[0]];
      }
      sealed := sealed + recs;
    }

    /**
      * dtls_seal_record. The AEAD may fail, and may add any number of bytes up to its overhead. A
      * record is out only when its number does not wrap and its ciphertext length fits 16 bits.
      */
    method SealRecord(typ: byte, payload: seq<byte>, usePrevious: bool, maxOut: nat, ghost part: Part)
      returns (ok: bool, outLen: nat)
      requires Valid() && (usePrevious ==> epoch >= 1)
      requires GenuineContent(typ, payload, part, queued)
      modifies this`writeSeq, this`lastWriteSeq, this`sealed, this`wrapped, this`sealCalls
      ensures Valid() && sealCalls == old(sealCalls) + 1
      ensures var c := SealedLength(WriteAead(usePrevious), sealing(old(sealCalls)), |payload|, maxOut);
              && (ok <==> c.Some? && c.value < 0x1_0000 && old(NextNumber(usePrevious)) + 1 < NUMBER_LIMIT)
              && (ok ==> outLen == RT_HEADER_LENGTH + c.value)
              && (wrapped <==> old(wrapped) || (c.Some? && old(NextNumber(usePrevious)) + 1 >= NUMBER_LIMIT))
      ensures if !ok then sealed == old(sealed) else
                && RT_HEADER_LENGTH <= outLen <= maxOut
                && sealed == old(sealed) + [SenderSpec.Sealed(typ, if usePrevious then epoch - 1 else epoch,
                                                              old(NextNumber(usePrevious)), payload, outLen, part)]
      ensures !wrapped && ok ==>
                && Value() == old(Value()).Seal(sealed[|old(sealed)|])
                && old(NextNumber(usePrevious)) + 1 < NUMBER_LIMIT
      ensures !wrapped && !ok ==> Value() == old(Value()) || Value() == old(Value()).UseNumber(usePrevious)
    {
      hide GenuineContent, BigEndian, FlightFrom, RecordsOk;
      var sealedLen := SealedLength(WriteAead(usePrevious), sealing(sealCalls), |payload|, maxOut);
      sealCalls := sealCalls + 1;
      if sealedLen.None? {
        return false, 0;
      }
      var ciphertextLen := sealedLen.value;
      ghost var rec := SenderSpec.Sealed(typ, if usePrevious then epoch - 1 else epoch, NextNumber(usePrevious),
                                         payload, RT_HEADER_LENGTH + ciphertextLen, part);
      var fits := UseSequence(usePrevious, if ciphertextLen < 0x1_0000 then [rec] else []);
      if !fits {
        return false, 0;
      }
      ok := ciphertextLen < 0x1_0000;
      outLen := if ok then RT_HEADER_LENGTH + ciphertextLen else 0;
    }

    /** The records sealed since there were `n` of them. */
    ghost function SealedSince(n: nat): seq<SenderSpec.Sealed>
      requires n <= |sealed|
      reads this`sealed
    {
      sealed[n..]
    }

    /** A record sealed for the message under the cursor, with the keys of its epoch */
    method SealForFlight(typ: byte, payload: seq<byte>, usePrevious: bool, maxOut: nat, ghost part: Part)
      returns (ok: bool, outLen: nat)
      requires Valid() && written < |outgoing|
      requires outgoing[written].epoch + (if usePrevious then 1 else 0) == epoch
      requires GenuineContent(typ, payload, part, queued)
      requires if outgoing[written].isCcs then part == NoPart else part.Part? && part.msg == numbers[written]
      requires maxOut >= RT_HEADER_LENGTH + WriteAead(usePrevious).maxOverhead + |payload|
      modifies this`writeSeq, this`lastWriteSeq, this`sealed, this`wrapped, this`sealCalls
      ensures Valid() && (old(wrapped) ==> wrapped)
      ensures old(sealCalls) <= sealCalls && (!ok ==> Trouble(maxOut, old(sealCalls)))
      ensures if !ok then sealed == old(sealed) else
                && RT_HEADER_LENGTH + |payload| <= outLen <= maxOut
                && sealed == old(sealed) + [SenderSpec.Sealed(typ, outgoing[written].epoch, old(NextNumber(usePrevious)),
                                                              payload, outLen, part)]
      ensures !wrapped ==> SealedOn(old(Value()), Value())
    {
      hide RecordsOk, BigEndian, GenuineContent, SealedOn, Outgoing.Carries;
      ghost var before := Value();
      ok, outLen := SealRecord(typ, payload, usePrevious, maxOut, part);
      assert !ok ==> Trouble(maxOut, old(sealCalls)) by {
        assert old(sealCalls) < sealCalls;
      }
      if !wrapped {
        RecordSealed(before, Value(), written, usePrevious, ok);
      }
    }

    /** seal_next_message: seal as much of the message under the cursor as fits `maxOut`. */
    method SealNextMessage(maxOut: nat) returns (res: SealResult, outLen: nat)
      requires Valid() && written < |outgoing|
      modifies this`offset, this`writeSeq, this`lastWriteSeq, this`sealed, this`wrapped, this`sealCalls
      ensures Valid() && (old(wrapped) ==> wrapped)
      ensures res.SealError? || res.NoProgress? ==> sealed == old(sealed) && offset == old(offset)
      ensures res.Partial? || res.Sealed? ==>
                && |sealed| == |old(sealed)| + 1 && sealed[..|old(sealed)|] == old(sealed)
                && var rec := sealed[|old(sealed)|];
                && rec.length == outLen <= maxOut
                && Carries(outgoing, old(Cursor()), rec)
                && Advance(outgoing, old(Cursor()), PartLength(rec))
                   == if res.Sealed? then SenderSpec.Cursor(written + 1, 0) else Cursor()
      ensures res.Sealed? ==> offset == 0
      ensures res.NoProgress? <==>
                && (epoch == outgoing[written].epoch || epoch == outgoing[written].epoch + 1)
                && maxOut < Room(outgoing[written], WriteAead(epoch != outgoing[written].epoch))
      ensures old(sealCalls) <= sealCalls
      ensures res.SealError? ==> Trouble(maxOut, old(sealCalls)) || !HasKeys(outgoing[written])
      ensures res.Partial? ==> !Fits(outgoing[written], maxOut - outLen)
      ensures !wrapped ==> SealedOn(old(Value()), Value())
    {
      hide RecordsOk, FlightFrom, SealedOn, Value, Trouble;
      NothingSealed(Value());
      var msg := outgoing[written];
      var usePrevious := false;
      if epoch >= 1 && msg.epoch == epoch - 1 {
        usePrevious := true;
      } else if msg.epoch != epoch {
        return SealError, 0;
      }
      if msg.isCcs {
        if maxOut < 1 + RT_HEADER_LENGTH + WriteAead(usePrevious).maxOverhead {
          return NoProgress, 0;
        }
        var ok;
        ok, outLen := SealForFlight(RT_CHANGE_CIPHER_SPEC, [MT_CCS], usePrevious, maxOut, NoPart);
        return if ok then SealResult.Sealed else SealError, outLen;
      }
      res, outLen := SealNextFragment(usePrevious, maxOut);
    }

    /** The part of seal_next_message for a handshake message, whose epoch selects the keys. */
    method SealNextFragment(usePrevious: bool, maxOut: nat) returns (res: SealResult, outLen: nat)
      requires Valid() && written < |outgoing| && !outgoing[written].isCcs
      requires outgoing[written].epoch + (if usePrevious then 1 else 0) == epoch
      modifies this`offset, this`writeSeq, this`lastWriteSeq, this`sealed, this`wrapped, this`sealCalls
      ensures Valid() && (old(wrapped) ==> wrapped)
      ensures res.SealError? || res.NoProgress? ==> sealed == old(sealed) && offset == old(offset)
      ensures res.Partial? || res.Sealed? ==>
                && |sealed| == |old(sealed)| + 1 && sealed[..|old(sealed)|] == old(sealed)
                && var rec := sealed[|old(sealed)|];
                && rec.length == outLen <= maxOut
                && Carries(outgoing, old(Cursor()), rec)
                && Advance(outgoing, old(Cursor()), PartLength(rec))
                   == if res.Sealed? then SenderSpec.Cursor(written + 1, 0) else Cursor()
      ensures res.Sealed? ==> offset == 0
      ensures res.NoProgress? <==> maxOut < Room(outgoing[written], WriteAead(usePrevious))
      ensures !wrapped ==> SealedOn(old(Value()), Value())
      ensures old(sealCalls) <= sealCalls && (res.SealError? ==> Trouble(maxOut, old(sealCalls)))
      ensures res.Partial? ==> maxOut - outLen < Room(outgoing[written], WriteAead(usePrevious))
      ensures res.Partial? ==> offset == old(offset) + (maxOut + 1 - Room(outgoing[written], WriteAead(usePrevious)))
    {
      hide RecordsOk, NumbersRise, AllGenuine, BigEndian, Serialize, ParseFragment, SealedOn, Value, Trouble;
      NothingSealed(Value());
      var msg := outgoing[written];
      var overhead := RT_HEADER_LENGTH + WriteAead(usePrevious).maxOverhead;
      var prefix := RT_HEADER_LENGTH + WriteAead(usePrevious).explicitNonceLen;
      var ok;
      ghost var number := numbers[written];
      ParseWhole(msg, queued[number], number);
      assert msg.Length() == |queued[number].body|;
      var p := ParseFragment(msg.data);
      if p.Malformed? || p.hdr.fragOff != 0 || p.hdr.fragLen != |p.body| || p.hdr.msgLen != |p.body|
         || offset > |p.body| || p.rest != [] {
        // a queued message is always one whole fragment
        assert false;
      }
      if maxOut < HM_HEADER_LENGTH + 1 + overhead || maxOut < prefix {
        return NoProgress, 0;
      }
      var left := |p.body| - offset;
      var todo := if left > maxOut - HM_HEADER_LENGTH - overhead then maxOut - HM_HEADER_LENGTH - overhead else left;
      if HM_HEADER_LENGTH + todo > maxOut - prefix {
        // the fragment always fits after the prefix
        assert false;
      }
      var fragment := Serialize(p.hdr.(fragOff := offset, fragLen := todo), p.body[offset..offset + todo]);
      ok, outLen := SealForFlight(RT_HANDSHAKE, fragment, usePrevious, maxOut, Part(number, offset, todo));
      if !ok {
        return SealError, 0;
      }
      if todo == left {
        offset := 0;
        return SealResult.Sealed, outLen;
      }
      offset := offset + todo;
      res := Partial;
    }

    /** One turn of the loop of seal_next_packet: seal from the message under the cursor and move past what was sealed. */
    method SealTurn(maxOut: nat, ghost start: Cursor, ghost n: nat) returns (res: SealResult, len: nat)
      requires Valid() && written < |outgoing|
      requires n <= |sealed| && Covers(outgoing, start, SealedSince(n), Cursor())
      modifies this`written, this`offset, this`writeSeq, this`lastWriteSeq, this`sealed, this`wrapped, this`sealCalls
      ensures Valid() && (old(wrapped) ==> wrapped)
      ensures n <= |sealed| && sealed[..n] == old(sealed[..n])
      ensures Covers(outgoing, start, SealedSince(n), Cursor())
      ensures res.SealError? || res.NoProgress? ==> sealed == old(sealed) && Cursor() == old(Cursor())
      ensures res.Partial? || res.Sealed? ==>
                SealedSince(n) != [] && TotalLength(SealedSince(n)) == old(TotalLength(SealedSince(n))) + len && len <= maxOut
      ensures written == old(written) + if res.Sealed? then 1 else 0
      ensures old(sealCalls) <= sealCalls
      ensures res.SealError? ==> Trouble(maxOut, old(sealCalls)) || !HasKeys(outgoing[written])
      ensures res.NoProgress? ==> !Fits(outgoing[written], maxOut)
      ensures res.Partial? ==> !Fits(outgoing[written], maxOut - len)
      ensures !wrapped ==> SealedOn(old(Value()), Value())
    {
      hide RecordsOk, FlightFrom, Carries, TotalLength, SealedOn, Value, Trouble;
      ghost var before, m := Cursor(), |sealed|;
      res, len := SealNextMessage(maxOut);
      if res == SealError || res == NoProgress {
        return;
      }
      CoversSnoc(outgoing, start, sealed[n..m], before, sealed[m]);
      assert sealed[n..m] == old(sealed)[n..] && sealed[n..] == sealed[n..m] + [sealed[m]];
      if res == SealResult.Sealed {
        written := written + 1;
      }
    }

    /** seal_next_packet: seal records until `maxOut` is full or the flight is done. */
    method SealNextPacket(maxOut: nat) returns (ok: bool, total: nat)
      requires Valid() && written < |outgoing|
      modifies this`written, this`offset, this`writeSeq, this`lastWriteSeq, this`sealed, this`wrapped, this`sealCalls
      ensures Valid() && (old(wrapped) ==> wrapped)
      ensures |old(sealed)| <= |sealed| && sealed[..|old(sealed)|] == old(sealed)
      ensures Covers(outgoing, old(Cursor()), SealedSince(|old(sealed)|), Cursor())
      ensures ok ==> SealedSince(|old(sealed)|) != [] && TotalLength(SealedSince(|old(sealed)|)) == total <= maxOut
      ensures Cursor() == old(Cursor()) <==> SealedSince(|old(sealed)|) == []
      ensures old(sealCalls) <= sealCalls && old(written) <= written
      ensures ok && written < |outgoing| ==> !Fits(outgoing[written], maxOut - total)
      ensures !ok ==> Trouble(maxOut, old(sealCalls)) || !AllFit(old(written), maxOut)
      ensures !wrapped ==> SealedOn(old(Value()), Value())
    {
      hide RecordsOk, FlightFrom, Carries, SealedOn, Value, Trouble, Room;
      NothingSealed(Value());
      ghost var n, start := |sealed|, Cursor();
      var madeProgress := false;
      var left := maxOut;
      total := 0;
      while written < |outgoing|
        invariant Valid() && (old(wrapped) ==> wrapped)
        invariant n <= |sealed| && sealed[..n] == old(sealed)
        invariant Covers(outgoing, start, SealedSince(n), Cursor())
        invariant TotalLength(SealedSince(n)) == total && total + left == maxOut
        invariant madeProgress <==> SealedSince(n) != []
        invariant old(sealCalls) <= sealCalls && old(written) <= written
        invariant !madeProgress ==> written == old(written)
        invariant !wrapped ==> SealedOn(old(Value()), Value())
        decreases |outgoing| - written
      {
        ghost var before, calls := Value(), sealCalls;
        var res, len := SealTurn(left, start, n);
        if !wrapped {
          SealedFurther(old(Value()), before, Value());
        }
        if res == SealError {
          if Trouble(left, calls) {
            TroubleWider(left, calls, maxOut, old(sealCalls));
          }
          CoversMovesForward(outgoing, start, SealedSince(n), Cursor());
          return false, 0;
        }
        if res == NoProgress {
          break;
        }
        left := left - len;
        total := total + len;
        madeProgress := true;
        if res == Partial {
          break;
        }
      }
      CoversMovesForward(outgoing, start, SealedSince(n), Cursor());
      ok := madeProgress;
    }

    /** dtls1_update_mtu; `queried` is the answer of the transport. */
    method UpdateMtu(queried: int)
      modifies this`mtu
      ensures mtu == if old(mtu) >= MIN_MTU || noQueryMtu then old(mtu)
                     else if MIN_MTU <= queried <= 0x4000_0000 then queried else DEFAULT_MTU
    {
      if mtu < MIN_MTU && !noQueryMtu {
        if queried >= 0 && queried <= 0x4000_0000 && queried >= MIN_MTU {
          mtu := queried;
        } else {
          mtu := DEFAULT_MTU;
        }
      }
    }

    /** One turn of the loop of send_flight: seal a packet, and hand it to the transport. */
    method SendTurn(ghost start: Cursor, ghost packets: seq<seq<SenderSpec.Sealed>>)
      returns (res: SendResult, ghost packet: seq<SenderSpec.Sealed>)
      requires Valid() && written < |outgoing| && Covers(outgoing, start, Flatten(packets), Cursor())
      modifies this`written, this`offset, this`writeSeq, this`lastWriteSeq, this`sealed, this`wrapped, this`sealCalls,
               this`writeCalls
      ensures Valid() && (old(wrapped) ==> wrapped)
      ensures sealed == old(sealed) + packet
      ensures res.Sent? || res.SealFailed? || res.WriteBlocked?
      ensures if res.WriteBlocked? then Cursor() == old(Cursor())
              else Covers(outgoing, start, Flatten(packets) + packet, Cursor())
      ensures res.Sent? ==>
                && packet != [] && TotalLength(packet) <= mtu
                && Flatten(packets + [packet]) == Flatten(packets) + packet
                && Before(old(Cursor()), Cursor())
                && (written < |outgoing| ==> !Fits(outgoing[written], mtu - TotalLength(packet)))
      ensures res.SealFailed? ==> (Covers(outgoing, start, Flatten(packets), Cursor()) <==> packet == [])
      ensures old(sealCalls) <= sealCalls && old(written) <= written
      ensures if res.SealFailed? then
                && writeCalls == old(writeCalls)
                && (Trouble(mtu, old(sealCalls)) || !AllFit(old(written), mtu))
              else writeCalls == old(writeCalls) + 1 && res.Sent? == writing(old(writeCalls))
      ensures !wrapped ==> SealedOn(old(Value()), Value())
    {
      hide RecordsOk, FlightFrom, Covers, TotalLength, Flatten, Outgoing.Length, SealedOn, Value, Trouble, AllFit;
      var oldWritten, oldOffset := written, offset;
      ghost var from, n := Cursor(), |sealed|;
      var ok, len := SealNextPacket(mtu);
      packet := SealedSince(n);
      assert sealed == old(sealed) + packet;
      CoversMovesForward(outgoing, from, packet, Cursor());
      CoversAppend(outgoing, start, Flatten(packets), from, packet, Cursor());
      FlattenSnoc(packets, packet);
      if !ok {
        if Covers(outgoing, start, Flatten(packets), Cursor()) {
          CoversUnique(outgoing, start, Flatten(packets), from, Cursor());
        }
        assert Flatten(packets) + [] == Flatten(packets);
        return SealFailed, packet;
      }
      var wrote := writing(writeCalls);
      writeCalls := writeCalls + 1;
      if !wrote {
        // the cursor goes back, and the packet will be sealed anew
        written, offset := oldWritten, oldOffset;
        return WriteBlocked, packet;
      }
      res := SendResult.Sent;
    }

    /** The transport takes the next `count` things it is given from call n on. */
    predicate AllTaken(n: nat, count: nat) {
      forall k | n <= k < n + count :: writing(k)
    }

    lemma NoPackets(n: nat, mtu: nat, sealed: seq<SenderSpec.Sealed>)
      ensures AllTaken(n, 0) && PacketsOk([], mtu, sealed)
    {
    }

    lemma OneMoreTaken(n: nat, count: nat)
      requires AllTaken(n, count) && writing(n + count)
      ensures AllTaken(n, count + 1)
    {
    }

    /** The loop of send_flight; `Sent` when it comes to the end of the flight. See there for `packets` and `lost`. */
    method SendPackets()
      returns (res: SendResult, ghost packets: seq<seq<SenderSpec.Sealed>>, ghost lost: seq<SenderSpec.Sealed>)
      requires Valid()
      modifies this`written, this`offset, this`writeSeq, this`lastWriteSeq, this`sealed, this`wrapped, this`sealCalls,
               this`writeCalls
      ensures Valid() && (old(wrapped) ==> wrapped)
      ensures |old(sealed)| <= |sealed| && sealed[..|old(sealed)|] == old(sealed)
      ensures PacketsOk(packets, mtu, sealed)
      ensures Covers(outgoing, old(Cursor()), Flatten(packets) + lost, Cursor())
      ensures if res.WriteBlocked? then Flatten(packets) <= sealed[|old(sealed)|..]
              else sealed[|old(sealed)|..] == Flatten(packets) + lost
      ensures lost != [] ==> res.SealFailed?
      ensures Covers(outgoing, old(Cursor()), Flatten(packets), Cursor()) <==> lost == []
      ensures res.Sent? || res.SealFailed? || res.WriteBlocked?
      ensures res.Sent? ==> Cursor() == SenderSpec.Cursor(|outgoing|, 0)
      ensures old(written) < |outgoing| && res.Sent? ==> packets != []
      ensures res.SealFailed? ==> Trouble(mtu, old(sealCalls)) || !AllFit(old(written), mtu)
      ensures AllTaken(old(writeCalls), |packets|)
      ensures if res.WriteBlocked? then !writing(old(writeCalls) + |packets|) && writeCalls == old(writeCalls) + |packets| + 1
              else writeCalls == old(writeCalls) + |packets|
      ensures !wrapped ==> SealedOn(old(Value()), Value())
    {
      hide RecordsOk, FlightFrom, Covers, TotalLength, Flatten, Outgoing.Length, SealedOn, Value, Trouble, AllFit;
      hide PacketsOk, AllTaken;
      NothingSealed(Value());
      packets, lost := [], [];
      EmptyPackets(outgoing, Cursor());
      NoPackets(writeCalls, mtu, sealed);
      ghost var start := Cursor();
      while written < |outgoing|
        invariant Valid() && (old(wrapped) ==> wrapped)
        invariant PacketsOk(packets, mtu, sealed)
        invariant Covers(outgoing, start, Flatten(packets), Cursor())
        invariant sealed == old(sealed) + Flatten(packets)
        invariant old(sealCalls) <= sealCalls && old(written) <= written
        invariant packets == [] ==> written == old(written)
        invariant writeCalls == old(writeCalls) + |packets| && AllTaken(old(writeCalls), |packets|)
        invariant !wrapped ==> SealedOn(old(Value()), Value())
        decreases |outgoing| - written, if written < |outgoing| then outgoing[written].Length() - offset else 0
      {
        ghost var before, calls, at, prior := Value(), sealCalls, written, sealed;
        ghost var packet;
        res, packet := SendTurn(start, packets);
        PacketsGrow(packets, packet, mtu, prior);
        if !wrapped {
          SealedFurther(old(Value()), before, Value());
        }
        if res == SealFailed {
          lost := packet;
          if Trouble(mtu, calls) {
            TroubleWider(mtu, calls, mtu, old(sealCalls));
          } else {
            FitWider(at, mtu, old(written));
          }
          return;
        }
        if res == WriteBlocked {
          assert Flatten(packets) + [] == Flatten(packets);
          return;
        }
        OneMoreTaken(old(writeCalls), |packets|);
        packets := packets + [packet];
      }
      assert Flatten(packets) + [] == Flatten(packets);
      res := SendResult.Sent;
    }

    /**
      * send_flight. `packets` are the datagrams the transport took. After a sealing error, `lost`
      * is what the cursor has moved past without it being in any datagram; otherwise nothing is.
      */
    method SendFlight(queriedMtu: int)
      returns (res: SendResult, ghost packets: seq<seq<SenderSpec.Sealed>>, ghost lost: seq<SenderSpec.Sealed>)
      requires Valid()
      modifies this`written, this`offset, this`writeSeq, this`lastWriteSeq, this`sealed, this`wrapped, this`mtu,
               this`sealCalls, this`writeCalls
      ensures Valid() && (old(wrapped) ==> wrapped)
      ensures |old(sealed)| <= |sealed| && sealed[..|old(sealed)|] == old(sealed)
      ensures PacketsOk(packets, mtu, sealed)
      ensures Covers(outgoing, old(Cursor()), Flatten(packets) + lost, Cursor())
      ensures if res.WriteBlocked? then Flatten(packets) <= sealed[|old(sealed)|..]
              else sealed[|old(sealed)|..] == Flatten(packets) + lost
      ensures lost != [] ==> res.SealFailed?
      ensures Covers(outgoing, old(Cursor()), Flatten(packets), Cursor()) <==> lost == []
      ensures res.Sent? || res.FlushBlocked? ==> Cursor() == SenderSpec.Cursor(|outgoing|, 0)
      ensures res.Shutdown? <==> shutdown
      ensures res.Shutdown? ==> packets == [] && sealed == old(sealed)
      ensures old(written) < |outgoing| && (res.Sent? || res.FlushBlocked?) ==> packets != []
      ensures res.SealFailed? ==> Trouble(mtu, old(sealCalls)) || !AllFit(old(written), mtu)
      ensures AllTaken(old(writeCalls), |packets|)
      ensures res.WriteBlocked? || res.FlushBlocked? ==> !writing(old(writeCalls) + |packets|)
      ensures res.Sent? ==> writing(old(writeCalls) + |packets|)
      ensures !wrapped ==> SealedOn(old(Value()), Value())
    {
      hide RecordsOk, FlightFrom, Covers, TotalLength, Flatten, Outgoing.Length, SealedOn, Value, Trouble, AllFit;
      hide PacketsOk, AllTaken;
      if shutdown {
        NothingSealed(Value());
        EmptyPackets(outgoing, Cursor());
        NoPackets(writeCalls, mtu, sealed);
        return Shutdown, [], [];
      }
      UpdateMtu(queriedMtu);
      res, packets, lost := SendPackets();
      if res != SendResult.Sent {
        return;
      }
      var flushed := writing(writeCalls);
      writeCalls := writeCalls + 1;
      res := if flushed then SendResult.Sent else FlushBlocked;
    }

    /** dtls1_flush_flight, but for its timer */
    method FlushFlight(queriedMtu: int)
      returns (res: SendResult, ghost packets: seq<seq<SenderSpec.Sealed>>, ghost lost: seq<SenderSpec.Sealed>)
      requires Valid()
      modifies this`complete, this`written, this`offset, this`writeSeq, this`lastWriteSeq, this`sealed, this`wrapped, this`mtu,
               this`sealCalls, this`writeCalls
      ensures Valid() && complete && (old(wrapped) ==> wrapped)
      ensures |old(sealed)| <= |sealed| && sealed[..|old(sealed)|] == old(sealed)
      ensures PacketsOk(packets, mtu, sealed)
      ensures Covers(outgoing, old(Cursor()), Flatten(packets) + lost, Cursor())
      ensures if res.WriteBlocked? then Flatten(packets) <= sealed[|old(sealed)|..]
              else sealed[|old(sealed)|..] == Flatten(packets) + lost
      ensures lost != [] ==> res.SealFailed?
      ensures Covers(outgoing, old(Cursor()), Flatten(packets), Cursor()) <==> lost == []
      ensures res.Shutdown? <==> shutdown
      ensures old(written) < |outgoing| && (res.Sent? || res.FlushBlocked?) ==> packets != []
      ensures res.SealFailed? ==> Trouble(mtu, old(sealCalls)) || !AllFit(old(written), mtu)
      ensures AllTaken(old(writeCalls), |packets|)
      ensures res.WriteBlocked? || res.FlushBlocked? ==> !writing(old(writeCalls) + |packets|)
      ensures res.Sent? ==> writing(old(writeCalls) + |packets|)
      ensures res.Sent? ==> Cursor() == SenderSpec.Cursor(|outgoing|, 0)
      ensures !wrapped ==> SealedOn(old(Value()).(complete := true), Value())
    {
      hide RecordsOk, FlightFrom, Covers, TotalLength, Flatten, Outgoing.Length, SealedOn, Trouble, AllFit;
      hide PacketsOk, AllTaken;
      complete := true;
      res, packets, lost := SendFlight(queriedMtu);
    }

    /** dtls1_retransmit_outgoing_messages: the whole flight again, from its start. */
    method RetransmitOutgoing(queriedMtu: int)
      returns (res: SendResult, ghost packets: seq<seq<SenderSpec.Sealed>>, ghost lost: seq<SenderSpec.Sealed>)
      requires Valid()
      modifies this`written, this`offset, this`writeSeq, this`lastWriteSeq, this`sealed, this`wrapped, this`mtu,
               this`sealCalls, this`writeCalls
      ensures Valid() && (old(wrapped) ==> wrapped)
      ensures |old(sealed)| <= |sealed| && sealed[..|old(sealed)|] == old(sealed)
      ensures PacketsOk(packets, mtu, sealed)
      ensures Covers(outgoing, SenderSpec.Cursor(0, 0), Flatten(packets) + lost, Cursor())
      ensures if res.WriteBlocked? then Flatten(packets) <= sealed[|old(sealed)|..]
              else sealed[|old(sealed)|..] == Flatten(packets) + lost
      ensures lost != [] ==> res.SealFailed?
      ensures Covers(outgoing, SenderSpec.Cursor(0, 0), Flatten(packets), Cursor()) <==> lost == []
      ensures res.Shutdown? <==> shutdown
      ensures outgoing != [] && (res.Sent? || res.FlushBlocked?) ==> packets != []
      ensures res.SealFailed? ==> Trouble(mtu, old(sealCalls)) || !AllFit(0, mtu)
      ensures AllTaken(old(writeCalls), |packets|)
      ensures res.WriteBlocked? || res.FlushBlocked? ==> !writing(old(writeCalls) + |packets|)
      ensures res.Sent? ==> writing(old(writeCalls) + |packets|)
      ensures res.Sent? ==> Cursor() == SenderSpec.Cursor(|outgoing|, 0)
      ensures !wrapped ==> SealedOn(old(Value()), Value())
    {
      hide RecordsOk, FlightFrom, Covers, TotalLength, Flatten, Outgoing.Length, SealedOn, Value, Trouble, AllFit;
      hide PacketsOk, AllTaken;
      written := 0;
      offset := 0;
      res, packets, lost := SendFlight(queriedMtu);
    }

    /** What dtls1_next_message tells the sending side: the flight has a reply. */
    method NoteReply()
      requires Valid()
      modifies this`hasReply
      ensures Valid() && hasReply == (old(hasReply) || complete)
    {
      if complete {
        hasReply := true;
      }
    }

    /** dtls1_on_handshake_complete, but for its timer: a final flight without a reply stays for retransmission. */
    method OnHandshakeComplete()
      requires Valid()
      modifies this`outgoing, this`numbers, this`written, this`offset, this`complete, this`hasReply
      ensures Valid()
      ensures if old(hasReply) then outgoing == [] && !complete && !hasReply
              else outgoing == old(outgoing) && Cursor() == old(Cursor()) && complete == old(complete)
    {
      if hasReply {
        ClearOutgoing();
      }
    }
  }

  /** Packets of sealed records, none empty or longer than the MTU */
  ghost predicate PacketsOk(packets: seq<seq<SenderSpec.Sealed>>, mtu: nat, sealed: seq<SenderSpec.Sealed>) {
    forall p <- packets :: p != [] && TotalLength(p) <= mtu && forall r <- p :: r in sealed
  }

  lemma PacketsGrow(
    packets: seq<seq<SenderSpec.Sealed>>, packet: seq<SenderSpec.Sealed>, mtu: nat, sealed: seq<SenderSpec.Sealed>)
    requires PacketsOk(packets, mtu, sealed)
    ensures PacketsOk(packets, mtu, sealed + packet)
    ensures packet != [] && TotalLength(packet) <= mtu ==> PacketsOk(packets + [packet], mtu, sealed + packet)
  {
    hide TotalLength;
    forall p <- packets ensures forall r <- p :: r in sealed + packet {
    }
  }

  /** The smallest space in which some of `msg` can be sealed. */
  function Room(msg: Outgoing, aead: Aead): nat {
    RT_HEADER_LENGTH + aead.maxOverhead + (if msg.isCcs then 1 else HM_HEADER_LENGTH + 1)
  }

  /** It is the space in which one byte of the message fits, whatever the AEAD adds. */
  lemma RoomIsEnough(msg: Outgoing, aead: Aead, space: nat)
    requires aead.Valid()
    ensures Room(msg, aead) <= space <==>
              forall added: nat ::
                SealedLength(aead, Some(added), if msg.isCcs then |[MT_CCS]| else HM_HEADER_LENGTH + 1, space).Some?
  {
    var len := if msg.isCcs then |[MT_CCS]| else HM_HEADER_LENGTH + 1;
    assert SealedLength(aead, Some(aead.maxOverhead), len, space).Some? <==> Room(msg, aead) <= space;
  }
}
