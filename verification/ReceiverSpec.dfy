/**
  * The receiving side of the DTLS handshake (d1_both.cc, dtls_record.cc, dtls_method.cc) on values:
  * what each operation does to the ring of partial messages, the read epoch and the replay window.
  */
module ReceiverSpec {
  import opened Bytes
  import opened HandshakeFragment
  import opened Reassembly
  import opened ReplayWindow

  /** SSL_MAX_HANDSHAKE_FLIGHT */
  const MAX_FLIGHT: nat := 7

  const RT_CHANGE_CIPHER_SPEC: byte := 20
  const RT_ALERT: byte := 21
  const RT_HANDSHAKE: byte := 22
  const RT_APPLICATION_DATA: byte := 23

  /** SSL3_MT_CCS, the one byte of a ChangeCipherSpec */
  const MT_CCS: byte := 1

  /** SSL3_RT_MAX_PLAIN_LENGTH */
  const MAX_PLAIN_LENGTH: nat := 16384

  /**
    * A record on arrival: `Garbled` when its header does not decode, otherwise its type, whether its
    * version is acceptable, its eight-byte epoch and sequence number, and what the AEAD of the
    * receiver makes of its body.
    */
  datatype Record =
    | Garbled
    | Record(typ: byte, versionOk: bool, sequence: seq<byte>, plaintext: Option<seq<byte>>)
  {
    predicate WellFormed() {
      Record? ==> |sequence| == 8
    }

    function Epoch(): nat
      requires Record? && WellFormed()
    {
      var high: nat := sequence[0];
      256 * high + sequence[1]
    }
  }

  datatype Outcome = Success | Discard | Alert | Error

  /** A delivered message: its type and its body. */
  datatype Message = Message(typ: byte, body: seq<byte>)

  predicate OneEpoch(epochs: set<nat>) {
    forall a, b | a in epochs && b in epochs :: a == b
  }

  datatype State = State(
    readSeq: nat,
    slots: seq<Option<Incoming>>,
    hasMessage: bool,
    hasCcs: bool,
    keyChanges: nat,
    nullCipher: bool,
    window: Window)
  {
    /** r_epoch, a 16-bit count of the read-key changes */
    function Epoch(): nat {
      keyChanges % 0x1_0000
    }

    function Current(): Option<Incoming>
      requires |slots| == MAX_FLIGHT
    {
      slots[readSeq % MAX_FLIGHT]
    }

    predicate CurrentComplete()
      requires |slots| == MAX_FLIGHT
    {
      Current().Some? && Current().value.Complete()
    }

    /**
      * Every occupied slot i holds a message whose number is i modulo the ring size and within the
      * ring size of the next message to read; a message that has been handed out is complete; the
      * bytes of a message still being assembled all come from the current read epoch.
      */
    ghost predicate Valid() {
      && |slots| == MAX_FLIGHT
      && readSeq < 0x1_0000
      && (forall i | 0 <= i < MAX_FLIGHT && slots[i].Some? :: SlotOk(i))
      && (hasMessage ==> CurrentComplete())
    }

    ghost predicate SlotOk(i: nat)
      requires |slots| == MAX_FLIGHT && i < MAX_FLIGHT && slots[i].Some?
    {
      var m := slots[i].value;
      && m.seqNo % MAX_FLIGHT == i
      && readSeq <= m.seqNo < readSeq + MAX_FLIGHT
      && m.seqNo < 0x1_0000
      && (forall k <- m.content :: k < m.msgLen)
      && (m.epochs <= {keyChanges} || (i == readSeq % MAX_FLIGHT && hasMessage && OneEpoch(m.epochs)))
    }
  }

  const EMPTY_RING: seq<Option<Incoming>> := [None, None, None, None, None, None, None]

  /** A connection before anything has arrived. */
  const INITIAL := State(0, EMPTY_RING, false, false, 0, true, EMPTY)

  /** dtls_open_record: the state afterwards, and the record type and payload when it is to be processed. */
  function OpenRecord(s: State, rec: Record): (State, Outcome)
    requires rec.WellFormed()
  {
    if rec.Garbled? || !rec.versionOk then (s, Discard)
    else if rec.Epoch() != s.Epoch() || s.window.ShouldDiscard(BigEndian(rec.sequence)) then (s, Discard)
    else if rec.plaintext.None? then (s, Discard)
    else if |rec.plaintext.value| > MAX_PLAIN_LENGTH then (s, Error)
    else
      var s' := s.(window := s.window.Record(BigEndian(rec.sequence)));
      (s', if rec.typ == RT_ALERT then Alert else Success)
  }

  /** dtls1_get_incoming_message: the ring with a place for the message of `hdr`, or nothing when it is refused. */
  function GetIncoming(s: State, hdr: Header): Option<State>
    requires |s.slots| == MAX_FLIGHT
  {
    if hdr.seqNo < s.readSeq || hdr.seqNo - s.readSeq >= MAX_FLIGHT then None
    else
      var idx := hdr.seqNo % MAX_FLIGHT;
      match s.slots[idx]
      case Some(m) => if m.typ != hdr.typ || m.msgLen != hdr.msgLen then None else Some(s)
      case None => Some(s.(slots := s.slots[idx := Some(Incoming(hdr.typ, hdr.seqNo, hdr.msgLen, map[], {}))]))
  }

  /** One turn of the fragment loop of dtls1_open_handshake; `maxLen` is ssl_max_handshake_message_len. */
  function AcceptFragment(s: State, hdr: Header, body: seq<byte>, maxLen: nat): (r: (State, bool))
    requires |s.slots| == MAX_FLIGHT
    ensures |r.0.slots| == MAX_FLIGHT
  {
    if hdr.fragOff > hdr.msgLen || hdr.fragOff + hdr.fragLen > hdr.msgLen || hdr.msgLen > maxLen then (s, false)
    else if s.Epoch() == 1 && hdr.seqNo != s.readSeq then (s, false)
    else if hdr.seqNo < s.readSeq || hdr.seqNo > s.readSeq + MAX_FLIGHT then (s, true)
    else
      match GetIncoming(s, hdr)
      case None => (s, false)
      case Some(s') =>
        var idx := hdr.seqNo % MAX_FLIGHT;
        var m := s'.slots[idx].value;
        if m.Complete() then (s', true)
        else (s'.(slots := s'.slots[idx := Some(m.Put(hdr.fragOff, body, s.keyChanges))]), true)
  }

  /** The fragment loop of dtls1_open_handshake. */
  function AcceptFragments(s: State, cbs: seq<byte>, maxLen: nat): (r: (State, bool))
    requires |s.slots| == MAX_FLIGHT
    ensures |r.0.slots| == MAX_FLIGHT
    decreases |cbs|
  {
    if cbs == [] then (s, true)
    else
      match ParseFragment(cbs)
      case Malformed => (s, false)
      case Parsed(hdr, body, rest) =>
        var (s', ok) := AcceptFragment(s, hdr, body, maxLen);
        if ok then AcceptFragments(s', rest, maxLen) else (s', false)
  }

  /** dtls1_open_handshake */
  function OpenHandshake(s: State, rec: Record, maxLen: nat): (r: (State, Outcome))
    requires |s.slots| == MAX_FLIGHT && rec.WellFormed()
    ensures |r.0.slots| == MAX_FLIGHT
  {
    var (s', outcome) := OpenRecord(s, rec);
    if outcome != Success then (s', outcome)
    else if rec.typ == RT_APPLICATION_DATA then (s', if s.nullCipher then Error else Discard)
    else if rec.typ == RT_CHANGE_CIPHER_SPEC then
      if !s.nullCipher || rec.plaintext.value != [MT_CCS] then (s', Error)
      else (s'.(hasCcs := true), Success)
    else if rec.typ == RT_HANDSHAKE then
      var (s'', ok) := AcceptFragments(s', rec.plaintext.value, maxLen);
      (s'', if ok then Success else Error)
    else (s', Error)
  }

  /** dtls1_open_change_cipher_spec */
  function OpenChangeCipherSpec(s: State, rec: Record, maxLen: nat): (r: (State, Outcome))
    requires |s.slots| == MAX_FLIGHT && rec.WellFormed()
    ensures |r.0.slots| == MAX_FLIGHT
  {
    var (s', outcome) := if s.hasCcs then (s, Success) else OpenHandshake(s, rec, maxLen);
    if outcome != Success then (s', outcome)
    else if s'.hasCcs then (s'.(hasCcs := false), Success)
    else (s', Discard)
  }

  /** dtls1_get_message: the current message, when it is complete. */
  function GetMessage(s: State): (State, Option<Message>)
    requires |s.slots| == MAX_FLIGHT
  {
    if !s.CurrentComplete() then (s, None)
    else
      var m := s.Current().value;
      (s.(hasMessage := true), Some(Message(m.typ, m.Body())))
  }

  /** dtls1_next_message. The message number is 16 bits wide and wraps. */
  function NextMessage(s: State): State
    requires |s.slots| == MAX_FLIGHT
  {
    s.(slots := s.slots[s.readSeq % MAX_FLIGHT := None],
       readSeq := (s.readSeq + 1) % 0x1_0000,
       hasMessage := false)
  }

  /** dtls_has_unprocessed_handshake_data */
  predicate HasUnprocessed(s: State)
    requires |s.slots| == MAX_FLIGHT
  {
    s.hasCcs || exists i | 0 <= i < MAX_FLIGHT :: s.slots[i].Some? && !(s.hasMessage && i == s.readSeq % MAX_FLIGHT)
  }

  /** dtls1_set_read_state: refused while the current epoch has leftover data. */
  function SetReadState(s: State, nullCipher: bool): (State, bool)
    requires |s.slots| == MAX_FLIGHT
  {
    if HasUnprocessed(s) then (s, false)
    else (s.(keyChanges := s.keyChanges + 1, window := EMPTY, nullCipher := nullCipher), true)
  }

  // What is handed out

  /**
    * A message is handed out exactly when every byte of the current one is in, and it is then all of these, in their
    * places. Asking for it changes no more than the note that it was handed out.
    */
  lemma HandedOutExactly(s: State)
    requires |s.slots| == MAX_FLIGHT
    ensures var (s', msg) := GetMessage(s);
            && (msg.Some? <==> s.Current().Some? && forall i: nat | i < s.Current().value.msgLen :: i in s.Current().value.content)
            && s' == s.(hasMessage := s.hasMessage || msg.Some?)
            && (msg.Some? ==>
                  && msg.value.typ == s.Current().value.typ
                  && |msg.value.body| == s.Current().value.msgLen
                  && forall i: nat | i < |msg.value.body| ::
                       i in s.Current().value.content && msg.value.body[i] == s.Current().value.content[i])
  {
  }

  // The invariant is kept by every operation

  /** The slot a fragment falls into is free or holds the message with the same number, and never a different one. */
  lemma SlotMatches(s: State, hdr: Header)
    requires s.Valid() && s.readSeq <= hdr.seqNo < s.readSeq + MAX_FLIGHT
    requires s.slots[hdr.seqNo % MAX_FLIGHT].Some?
    ensures s.slots[hdr.seqNo % MAX_FLIGHT].value.seqNo == hdr.seqNo
  {
    assert s.SlotOk(hdr.seqNo % MAX_FLIGHT);
  }

  lemma PutFits(m: Incoming, off: nat, body: seq<byte>, epoch: nat)
    ensures var m' := m.Put(off, body, epoch);
            && m'.seqNo == m.seqNo && m'.msgLen == m.msgLen && m'.typ == m.typ
            && m'.epochs <= m.epochs + {epoch}
            && forall k <- m'.content :: k in m.content || k < off + |body|
  {
  }

  lemma AcceptFragmentKeepsValid(s: State, hdr: Header, body: seq<byte>, maxLen: nat)
    requires s.Valid() && hdr.Fits() && |body| == hdr.fragLen
    ensures AcceptFragment(s, hdr, body, maxLen).0.Valid()
  {
    hide Incoming.Put, Incoming.Complete;
    var s' := AcceptFragment(s, hdr, body, maxLen).0;
    if s' != s {
      var idx := hdr.seqNo % MAX_FLIGHT;
      if s.slots[idx].Some? {
        SlotMatches(s, hdr);
        assert s.SlotOk(idx);
      }
      PutFits(if s.slots[idx].Some? then s.slots[idx].value else Incoming(hdr.typ, hdr.seqNo, hdr.msgLen, map[], {}),
              hdr.fragOff, body, s.keyChanges);
      forall i | 0 <= i < MAX_FLIGHT && s'.slots[i].Some? ensures s'.SlotOk(i) {
        if i != idx {
          assert s.SlotOk(i);
        }
      }
    }
  }

  lemma {:induction false} AcceptFragmentsKeepValid(s: State, cbs: seq<byte>, maxLen: nat)
    requires s.Valid()
    ensures AcceptFragments(s, cbs, maxLen).0.Valid()
    decreases |cbs|
  {
    if cbs != [] && ParseFragment(cbs).Parsed? {
      var p := ParseFragment(cbs);
      AcceptFragmentKeepsValid(s, p.hdr, p.body, maxLen);
      AcceptFragmentsKeepValid(AcceptFragment(s, p.hdr, p.body, maxLen).0, p.rest, maxLen);
    }
  }

  lemma NextMessageKeepsValid(s: State)
    requires s.Valid() && s.hasMessage
    ensures NextMessage(s).Valid()
  {
    var s' := NextMessage(s);
    forall i | 0 <= i < MAX_FLIGHT && s'.slots[i].Some? ensures s'.SlotOk(i) {
      assert s.SlotOk(i);
    }
  }

  lemma SetReadStateKeepsValid(s: State, nullCipher: bool)
    requires s.Valid()
    ensures SetReadState(s, nullCipher).0.Valid()
  {
    var s' := SetReadState(s, nullCipher).0;
    forall i | 0 <= i < MAX_FLIGHT && s'.slots[i].Some? ensures s'.SlotOk(i) {
      assert s.SlotOk(i);
    }
  }

  // Which records open

  /** A well-formed record of the current epoch that opens, with a number that is neither used nor left behind */
  ghost predicate Fresh(s: State, rec: Record, seen: set<nat>)
    requires rec.WellFormed()
  {
    && rec.Record? && rec.versionOk && rec.plaintext.Some?
    && rec.Epoch() == s.Epoch()
    && BigEndian(rec.sequence) !in seen && Max(seen) < BigEndian(rec.sequence) + WINDOW_SIZE
  }

  /**
    * Exactly the fresh records are processed, and of them those too long are errors. Only what is processed is
    * remembered: a record that is forged, of another epoch, old or malformed leaves everything as it was.
    */
  lemma OpenedExactly(s: State, rec: Record, seen: set<nat>)
    requires rec.WellFormed() && s.window.Represents(seen)
    ensures var (s', outcome) := OpenRecord(s, rec);
            && (outcome == Discard <==> !Fresh(s, rec, seen))
            && (outcome == Error <==> Fresh(s, rec, seen) && |rec.plaintext.value| > MAX_PLAIN_LENGTH)
            && (outcome == Alert || outcome == Success ==> (outcome == Alert <==> rec.typ == RT_ALERT))
            && if outcome == Alert || outcome == Success
               then s' == s.(window := s'.window) && s'.window.Represents(seen + {BigEndian(rec.sequence)})
               else s' == s
  {
    hide BigEndian, Window.ShouldDiscard, Window.Record, Window.Represents;
    if rec.Record? {
      DiscardedIffSeenOrStale(s.window, seen, BigEndian(rec.sequence));
      if !s.window.ShouldDiscard(BigEndian(rec.sequence)) {
        RecordAdds(s.window, BigEndian(rec.sequence), seen);
      }
    }
  }

  // ChangeCipherSpec and key changes

  /**
    * A pending ChangeCipherSpec comes of a record of that type, opened without encryption, whose payload is its one
    * byte; and such a record makes it pending.
    */
  lemma PendingExactly(s: State, rec: Record, maxLen: nat)
    requires |s.slots| == MAX_FLIGHT && rec.WellFormed()
    ensures OpenHandshake(s, rec, maxLen).0.hasCcs <==>
              || s.hasCcs
              || (&& OpenRecord(s, rec).1 == Success && s.nullCipher
                  && rec.typ == RT_CHANGE_CIPHER_SPEC && rec.plaintext == Some([MT_CCS]))
  {
    hide OpenRecord, AcceptFragments, ParseFragment;
    OpenedOnlyWindow(s, rec);
    if OpenRecord(s, rec).1 == Success {
      PayloadKeepsRest(OpenRecord(s, rec).0, rec.plaintext.value, maxLen);
    }
  }

  lemma OpenedOnlyWindow(s: State, rec: Record)
    requires rec.WellFormed()
    ensures OpenRecord(s, rec).0 == s.(window := OpenRecord(s, rec).0.window)
    ensures OpenRecord(s, rec).1 == Success ==> rec.Record? && rec.plaintext.Some?
  {
    hide BigEndian, Window.ShouldDiscard, Window.Record;
  }

  /** A payload of fragments does nothing but to the ring. */
  lemma {:induction false} PayloadKeepsRest(s: State, cbs: seq<byte>, maxLen: nat)
    requires |s.slots| == MAX_FLIGHT
    ensures AcceptFragments(s, cbs, maxLen).0 == s.(slots := AcceptFragments(s, cbs, maxLen).0.slots)
    decreases |cbs|
  {
    hide ParseFragment;
    if cbs != [] && ParseFragment(cbs).Parsed? {
      var p := ParseFragment(cbs);
      PayloadKeepsRest(AcceptFragment(s, p.hdr, p.body, maxLen).0, p.rest, maxLen);
    }
  }

  /**
    * dtls1_open_change_cipher_spec succeeds exactly when a ChangeCipherSpec is pending, already or by this record,
    * and takes it; anything else that was processed is to be followed by another record.
    */
  lemma TakenExactly(s: State, rec: Record, maxLen: nat)
    requires |s.slots| == MAX_FLIGHT && rec.WellFormed()
    ensures var (s', outcome) := OpenChangeCipherSpec(s, rec, maxLen);
            var (t, o) := OpenHandshake(s, rec, maxLen);
            && (outcome == Success <==> s.hasCcs || (o == Success && t.hasCcs))
            && (outcome == Success ==> s' == (if s.hasCcs then s else t).(hasCcs := false))
            && (outcome != Success ==> s' == t && outcome == if o == Success then Discard else o)
  {
    hide OpenHandshake;
  }

  /** A record that opened and is not of a handshake ends it, but for application data under a key, and alerts. */
  lemma OtherTypesFail(s: State, rec: Record, maxLen: nat)
    requires |s.slots| == MAX_FLIGHT && rec.WellFormed() && OpenRecord(s, rec).1 == Success
    requires rec.typ != RT_HANDSHAKE
    ensures OpenHandshake(s, rec, maxLen).1
            == if rec.typ == RT_APPLICATION_DATA && !s.nullCipher then Discard
               else if rec.typ == RT_CHANGE_CIPHER_SPEC && s.nullCipher && rec.plaintext == Some([MT_CCS]) then Success
               else Error
    ensures OpenHandshake(s, rec, maxLen).0.slots == s.slots
  {
    hide OpenRecord;
    OpenedOnlyWindow(s, rec);
  }

  /**
    * The read key changes exactly when no ChangeCipherSpec is pending and the ring holds nothing but a message that
    * was handed out. Then the next epoch starts with an empty window; otherwise nothing changes.
    */
  lemma KeyChangesExactly(s: State, nullCipher: bool)
    requires s.Valid()
    ensures var (s', ok) := SetReadState(s, nullCipher);
            && (ok <==> !s.hasCcs && forall k: nat | Holds(s, k) :: k == s.readSeq && s.hasMessage)
            && s' == (if ok then s.(keyChanges := s.keyChanges + 1, window := EMPTY, nullCipher := nullCipher) else s)
            && (ok ==> s'.window.Represents({}))
  {
    EmptyRepresents();
    forall i: nat | i < MAX_FLIGHT && s.slots[i].Some?
      ensures Holds(s, s.slots[i].value.seqNo) && (i == s.readSeq % MAX_FLIGHT <==> s.slots[i].value.seqNo == s.readSeq)
    {
      assert s.SlotOk(i);
    }
  }

  // What becomes of a fragment, by its message number

  /** The ring holds message k. */
  ghost predicate Holds(s: State, k: nat) {
    |s.slots| == MAX_FLIGHT && s.slots[k % MAX_FLIGHT].Some? && s.slots[k % MAX_FLIGHT].value.seqNo == k
  }

  /** The bytes of message k that are in */
  ghost function Content(s: State, k: nat): map<nat, byte> {
    if Holds(s, k) then s.slots[k % MAX_FLIGHT].value.content else map[]
  }

  ghost predicate InRing(s: State, k: nat) {
    s.readSeq <= k < s.readSeq + MAX_FLIGHT
  }

  /** The fragment contradicts what the ring has of its message. */
  ghost predicate Conflicts(s: State, hdr: Header) {
    && InRing(s, hdr.seqNo) && Holds(s, hdr.seqNo)
    && var m := s.slots[hdr.seqNo % MAX_FLIGHT].value;
    m.typ != hdr.typ || m.msgLen != hdr.msgLen
  }

  /**
    * A fragment is refused exactly when it is out of bounds or too long, not of the current message in epoch 1, seven
    * ahead of that, or in conflict with what is there. Refused or not, it does nothing outside the ring.
    */
  lemma AcceptedExactly(s: State, hdr: Header, body: seq<byte>, maxLen: nat)
    requires s.Valid() && hdr.Fits() && |body| == hdr.fragLen
    ensures var (s', ok) := AcceptFragment(s, hdr, body, maxLen);
            && (ok <==>
                  && hdr.fragOff + hdr.fragLen <= hdr.msgLen <= maxLen
                  && (s.Epoch() == 1 ==> hdr.seqNo == s.readSeq)
                  && hdr.seqNo != s.readSeq + MAX_FLIGHT
                  && !Conflicts(s, hdr))
            && (!ok || !InRing(s, hdr.seqNo) ==> s' == s)
  {
    if s.slots[hdr.seqNo % MAX_FLIGHT].Some? && InRing(s, hdr.seqNo) {
      SlotMatches(s, hdr);
    }
  }

  /** An accepted fragment within the ring is put in its place, unless the message is complete; all else stays. */
  lemma AcceptedPut(s: State, hdr: Header, body: seq<byte>, maxLen: nat)
    requires s.Valid() && hdr.Fits() && |body| == hdr.fragLen
    requires AcceptFragment(s, hdr, body, maxLen).1 && InRing(s, hdr.seqNo)
    ensures var s' := AcceptFragment(s, hdr, body, maxLen).0;
            var k := hdr.seqNo;
            && s' == s.(slots := s'.slots) && Holds(s', k)
            && (forall i: nat | i < MAX_FLIGHT && i != k % MAX_FLIGHT :: s'.slots[i] == s.slots[i])
            && s'.slots[k % MAX_FLIGHT].value.typ == hdr.typ && s'.slots[k % MAX_FLIGHT].value.msgLen == hdr.msgLen
            && if Holds(s, k) && s.slots[k % MAX_FLIGHT].value.Complete() then s' == s
               else forall x: nat ::
                 && (x in Content(s', k) <==> x in Content(s, k) || hdr.fragOff <= x < hdr.fragOff + |body|)
                 && (x in Content(s', k) ==>
                       Content(s', k)[x]
                       == if hdr.fragOff <= x < hdr.fragOff + |body| then body[x - hdr.fragOff] else Content(s, k)[x])
  {
    if s.slots[hdr.seqNo % MAX_FLIGHT].Some? {
      SlotMatches(s, hdr);
    }
  }

  lemma BeyondRingUntouched(s: State, hdr: Header, body: seq<byte>, maxLen: nat)
    requires |s.slots| == MAX_FLIGHT && !InRing(s, hdr.seqNo)
    ensures AcceptFragment(s, hdr, body, maxLen).0 == s
  {
  }

  /**
    * A fragment of a message outside the ring, already read or too far ahead, is ignored unless it is exactly the size
    * of the ring ahead. Exactly that far ahead it is an error, though the ring has no more place for it.
    */
  lemma IgnoredExactly(s: State, hdr: Header, body: seq<byte>, maxLen: nat)
    requires s.Valid() && s.Epoch() != 1
    requires hdr.fragOff + hdr.fragLen <= hdr.msgLen <= maxLen && !InRing(s, hdr.seqNo)
    ensures AcceptFragment(s, hdr, body, maxLen) == (s, true) <==> hdr.seqNo != s.readSeq + MAX_FLIGHT
  {
  }

  /** So a record with such a fragment ends the handshake if and only if the message is exactly that far ahead. */
  lemma RecordIgnoredExactly(s: State, rec: Record, hdr: Header, body: seq<byte>, maxLen: nat)
    requires s.Valid() && s.Epoch() != 1 && rec.WellFormed() && rec.Record? && rec.typ == RT_HANDSHAKE
    requires OpenRecord(s, rec).1 == Success
    requires rec.plaintext.Some? && ParseFragment(rec.plaintext.value) == Parsed(hdr, body, [])
    requires hdr.fragOff + hdr.fragLen <= hdr.msgLen <= maxLen && !InRing(s, hdr.seqNo)
    ensures OpenHandshake(s, rec, maxLen)
            == (OpenRecord(s, rec).0, if hdr.seqNo == s.readSeq + MAX_FLIGHT then Error else Success)
  {
    hide OpenRecord, AcceptFragment;
    var s1 := OpenRecord(s, rec).0;
    OpenedSameRing(s, rec);
    IgnoredExactly(s1, hdr, body, maxLen);
    BeyondRingUntouched(s1, hdr, body, maxLen);
    OneFragment(s1, rec.plaintext.value, maxLen);
  }

  lemma OpenedSameRing(s: State, rec: Record)
    requires s.Valid() && rec.WellFormed()
    ensures OpenRecord(s, rec).0 == s.(window := OpenRecord(s, rec).0.window) && OpenRecord(s, rec).0.Valid()
  {
    hide BigEndian, Window.ShouldDiscard, Window.Record;
    forall i | 0 <= i < MAX_FLIGHT && s.slots[i].Some? ensures OpenRecord(s, rec).0.SlotOk(i) {
      assert s.SlotOk(i);
    }
  }

  /** A payload of one fragment */
  lemma OneFragment(s: State, payload: seq<byte>, maxLen: nat)
    requires |s.slots| == MAX_FLIGHT && ParseFragment(payload).Parsed? && ParseFragment(payload).rest == []
    ensures var p := ParseFragment(payload);
            AcceptFragments(s, payload, maxLen) == AcceptFragment(s, p.hdr, p.body, maxLen)
  {
    hide AcceptFragment;
    var p := ParseFragment(payload);
    assert payload != [];
  }

  /** A first record with a fragment of message 7 */
  const SEVEN_AHEAD := Record(RT_HANDSHAKE, true, [0, 0, 0, 0, 0, 0, 0, 0], Some(Serialize(Header(0, 0, 7, 0, 0), [])))

  /** Seven ahead of a receiver that has seen nothing: the handshake ends in an error. */
  lemma SevenAheadFails()
    ensures OpenHandshake(INITIAL, SEVEN_AHEAD, 0).1 == Error
  {
    hide Serialize, ParseFragment, BigEndian, AcceptFragments, OpenHandshake;
    var hdr := Header(0, 0, 7, 0, 0);
    var payload := Serialize(hdr, []);
    BigEndianZeros(SEVEN_AHEAD.sequence);
    ParseSerialize(hdr, [], []);
    assert payload + [] == payload;
    assert |payload| <= MAX_PLAIN_LENGTH by { FieldsAt(hdr, []); }
    assert !EMPTY.ShouldDiscard(0) by { NothingDiscarded(); }
    RecordIgnoredExactly(INITIAL, SEVEN_AHEAD, hdr, [], 0);
  }

  lemma NothingDiscarded()
    ensures !EMPTY.ShouldDiscard(0)
  {
    EmptyRepresents();
    DiscardedIffSeenOrStale(EMPTY, {}, 0);
  }
}
